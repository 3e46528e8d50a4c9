/** The kernel heap as a row of blocks: allocation, release, and why the row is determined by what is live. */
module HeapLayout {
  const HEADER_SIZE: nat := 12
  const ALIGN_SIZE: nat := 16

  datatype Block = Block(addr: nat, size: nat, free: bool)

  // ----- sizes -----

  /** What a request takes, computed on 32-bit words. */
  function TotalSize(size: nat): (t: nat)
  {
    ((size + HEADER_SIZE) % 0x1_0000_0000 + ALIGN_SIZE - 1) % 0x1_0000_0000 / 16 * 16
  }

  /** The total holds the header and the request exactly when rounding up does not wrap. */
  lemma TotalSizeFits(size: nat)
    requires 0 < size < 0x1_0000_0000
    ensures TotalSize(size) >= size + HEADER_SIZE <==> size + 27 < 0x1_0000_0000
    ensures size + 27 < 0x1_0000_0000 ==> TotalSize(size) % 16 == 0 && TotalSize(size) < size + HEADER_SIZE + ALIGN_SIZE
  {
  }

  /** A request this long is given a total of zero. */
  lemma TotalSizeWraps()
    ensures TotalSize(0xFFFF_FFF0) == 0
  {
  }

  // ----- rows of blocks -----

  /** The blocks cover start..end without gaps or overlaps, in whole multiples of 16. */
  ghost predicate Tiled(bs: seq<Block>, start: nat, end: nat) {
    if bs == [] then start == end
    else bs[0].addr == start && bs[0].size > 0 && bs[0].size % 16 == 0 && Tiled(bs[1..], start + bs[0].size, end)
  }

  ghost predicate NoAdjacentFree(bs: seq<Block>) {
    forall i :: 0 <= i < |bs| - 1 ==> !(bs[i].free && bs[i + 1].free)
  }

  /** The live blocks, in address order. */
  function Used(bs: seq<Block>): seq<Block> {
    if bs == [] then [] else (if bs[0].free then [] else [bs[0]]) + Used(bs[1..])
  }

  lemma {:induction false} TiledSplit(a: seq<Block>, b: seq<Block>, start: nat, end: nat) returns (mid: nat)
    requires Tiled(a + b, start, end)
    ensures Tiled(a, start, mid) && Tiled(b, mid, end)
    ensures b != [] ==> mid == b[0].addr
  {
    if a == [] {
      assert a + b == b;
      mid := start;
    } else {
      assert (a + b)[1..] == a[1..] + b;
      mid := TiledSplit(a[1..], b, start + a[0].size, end);
    }
  }

  lemma {:induction false} TiledJoin(a: seq<Block>, b: seq<Block>, start: nat, mid: nat, end: nat)
    requires Tiled(a, start, mid) && Tiled(b, mid, end)
    ensures Tiled(a + b, start, end)
  {
    if a == [] {
      assert a + b == b;
    } else {
      assert (a + b)[1..] == a[1..] + b;
      TiledJoin(a[1..], b, start + a[0].size, mid, end);
    }
  }

  /** Each block ends where the next begins, and stays inside. */
  lemma {:induction false} TiledAt(bs: seq<Block>, start: nat, end: nat, i: nat)
    requires Tiled(bs, start, end) && i < |bs|
    ensures bs[i].size > 0 && bs[i].size % 16 == 0
    ensures start <= bs[i].addr && bs[i].addr + bs[i].size <= end && (i == 0 ==> bs[i].addr == start)
    ensures i + 1 < |bs| ==> bs[i + 1].addr == bs[i].addr + bs[i].size
    ensures i + 1 == |bs| ==> bs[i].addr + bs[i].size == end
  {
    TiledGrows(bs[1..], start + bs[0].size, end);
    if i > 0 {
      TiledAt(bs[1..], start + bs[0].size, end, i - 1);
    }
  }

  lemma {:induction false} TiledGrows(bs: seq<Block>, start: nat, end: nat)
    requires Tiled(bs, start, end)
    ensures start <= end && (start == end ==> bs == [])
  {
    if bs != [] {
      TiledGrows(bs[1..], start + bs[0].size, end);
    }
  }

  lemma {:induction false} TiledApart(bs: seq<Block>, start: nat, end: nat, i: nat, j: nat)
    requires Tiled(bs, start, end) && i < j < |bs|
    ensures bs[i].addr + bs[i].size <= bs[j].addr
    decreases j
  {
    TiledAt(bs, start, end, j - 1);
    if i < j - 1 {
      TiledApart(bs, start, end, i, j - 1);
    }
  }

  /** Payloads of different blocks share no byte and lie inside the heap. */
  lemma PayloadsDisjoint(bs: seq<Block>, start: nat, end: nat, i: nat, j: nat, x: nat)
    requires Tiled(bs, start, end) && i < |bs| && j < |bs|
    requires bs[i].addr + HEADER_SIZE <= x < bs[i].addr + bs[i].size
    ensures start <= x < end
    ensures bs[j].addr + HEADER_SIZE <= x < bs[j].addr + bs[j].size ==> i == j
  {
    TiledAt(bs, start, end, i);
    if i < j {
      TiledApart(bs, start, end, i, j);
    } else if j < i {
      TiledApart(bs, start, end, j, i);
    }
  }

  /** The first bytes of a block, where its header lies, are in no payload and in no other header: writing
      into payloads never changes the list. */
  lemma HeadersApart(bs: seq<Block>, start: nat, end: nat, i: nat, j: nat, x: nat)
    requires Tiled(bs, start, end) && i < |bs| && j < |bs| && bs[i].addr <= x < bs[i].addr + HEADER_SIZE
    ensures start <= x < end && !(bs[j].addr + HEADER_SIZE <= x < bs[j].addr + bs[j].size)
    ensures i != j ==> !(bs[j].addr <= x < bs[j].addr + HEADER_SIZE)
  {
    TiledAt(bs, start, end, i);
    TiledAt(bs, start, end, j);
    if i < j {
      TiledApart(bs, start, end, i, j);
    } else if j < i {
      TiledApart(bs, start, end, j, i);
    }
  }

  // ----- the row is determined by the live blocks -----

  /** Two rows over the same range, each without adjacent free blocks, are equal when the same blocks are
      live in them. */
  lemma {:induction false} DeterminedByUsed(a: seq<Block>, b: seq<Block>, start: nat, end: nat)
    requires Tiled(a, start, end) && Tiled(b, start, end) && NoAdjacentFree(a) && NoAdjacentFree(b)
    requires Used(a) == Used(b)
    ensures a == b
  {
    TiledGrows(a, start, end);
    TiledGrows(b, start, end);
    if a != [] {
      SameFirst(a, b, start, end);
      UsedHead(a);
      UsedHead(b);
      assert NoAdjacentFree(a[1..]) && NoAdjacentFree(b[1..]);
      DeterminedByUsed(a[1..], b[1..], start + a[0].size, end);
    }
  }

  lemma UsedHead(bs: seq<Block>)
    requires bs != []
    ensures bs[0].free ==> Used(bs) == Used(bs[1..])
    ensures !bs[0].free ==> Used(bs) != [] && Used(bs)[0] == bs[0] && Used(bs)[1..] == Used(bs[1..])
  {
    if !bs[0].free {
      assert ([bs[0]] + Used(bs[1..]))[1..] == Used(bs[1..]);
    }
  }

  /** A free first block ends where the first live block starts. */
  lemma FreeUntil(a: seq<Block>, start: nat, end: nat)
    requires Tiled(a, start, end) && NoAdjacentFree(a) && a != [] && a[0].free
    ensures a[0].size == (if Used(a) == [] then end else Used(a)[0].addr) - start
    ensures Used(a) == [] ==> |a| == 1
  {
    TiledAt(a, start, end, 0);
    UsedHead(a);
    if |a| > 1 {
      assert !(a[0].free && a[0 + 1].free);
      UsedHead(a[1..]);
    } else {
      assert a[1..] == [];
    }
  }

  lemma SameFirst(a: seq<Block>, b: seq<Block>, start: nat, end: nat)
    requires Tiled(a, start, end) && Tiled(b, start, end) && NoAdjacentFree(a) && NoAdjacentFree(b)
    requires Used(a) == Used(b) && a != [] && b != []
    ensures a[0] == b[0]
  {
    UsedHead(a);
    UsedHead(b);
    if a[0].free {
      FreeUntil(a, start, end);
    }
    if b[0].free {
      FreeUntil(b, start, end);
    }
  }

  lemma {:induction false} UsedJoin(a: seq<Block>, b: seq<Block>)
    ensures Used(a + b) == Used(a) + Used(b)
  {
    if a == [] {
      assert a + b == b;
    } else {
      assert (a + b)[1..] == a[1..] + b;
      UsedJoin(a[1..], b);
    }
  }

  // ----- allocation -----

  /** The first free block that is large enough, or the length when there is none. */
  function FirstFit(bs: seq<Block>, total: nat): (i: nat)
    ensures i <= |bs|
    ensures i < |bs| ==> bs[i].free && bs[i].size >= total
    ensures forall j :: 0 <= j < i ==> !(bs[j].free && bs[j].size >= total)
  {
    if bs == [] || (bs[0].free && bs[0].size >= total) then 0 else 1 + FirstFit(bs[1..], total)
  }

  /** What becomes of the chosen block: the rest is split off when a header and 16 bytes fit in it. */
  function Carve(b: Block, total: nat): (r: seq<Block>)
    requires b.size >= total
    ensures |r| >= 1 && !r[0].free && r[0].addr == b.addr && r[0].size >= total
  {
    if b.size >= total + HEADER_SIZE + ALIGN_SIZE
    then [Block(b.addr, total, false), Block(b.addr + total, b.size - total, true)]
    else [b.(free := false)]
  }

  function Allocated(bs: seq<Block>, i: nat, total: nat): seq<Block>
    requires i < |bs| && bs[i].size >= total
  {
    bs[..i] + Carve(bs[i], total) + bs[i + 1..]
  }

  lemma SizesFit(bs: seq<Block>, size: nat, start: nat, end: nat, j: nat)
    requires Tiled(bs, start, end) && 0 < size && size + 27 < 0x1_0000_0000 && j < |bs|
    ensures bs[j].size >= TotalSize(size) <==> bs[j].size >= size + 12
  {
    TotalSizeFits(size);
    TiledAt(bs, start, end, j);
  }

  /** A request is met exactly when some free block has room for it and its header, and the first such block is
      taken. */
  lemma FirstFitIs(bs: seq<Block>, size: nat, start: nat, end: nat)
    requires Tiled(bs, start, end) && 0 < size && size + 27 < 0x1_0000_0000
    ensures FirstFit(bs, TotalSize(size)) < |bs| <==> exists j :: 0 <= j < |bs| && bs[j].free && bs[j].size >= size + 12
    ensures forall j :: 0 <= j < |bs| && bs[j].free && bs[j].size >= size + 12 ==> FirstFit(bs, TotalSize(size)) <= j
  {
    hide TotalSize, Tiled;
    forall j | 0 <= j < |bs| ensures bs[j].size >= TotalSize(size) <==> bs[j].size >= size + 12 {
      SizesFit(bs, size, start, end, j);
    }
  }

  /** At most 43 bytes more than asked for are taken; what is left of the block stays free right behind it, and no
      other block changes. */
  lemma TakenShape(bs: seq<Block>, size: nat, start: nat, end: nat)
    requires Tiled(bs, start, end) && 0 < size && size + 27 < 0x1_0000_0000
    requires FirstFit(bs, TotalSize(size)) < |bs|
    ensures var i := FirstFit(bs, TotalSize(size));
      var after, b := Allocated(bs, i, TotalSize(size)), bs[i];
      && i < |after| && after[..i] == bs[..i] && after[i] == Block(b.addr, after[i].size, false)
      && size + 12 <= after[i].size <= size + 43 && after[i].size <= b.size
      && after[i + 1..] == (if after[i].size == b.size then []
                            else [Block(b.addr + after[i].size, b.size - after[i].size, true)]) + bs[i + 1..]
  {
    var i := FirstFit(bs, TotalSize(size));
    TotalSizeFits(size);
    TiledAt(bs, start, end, i);
    hide TotalSize, Tiled, FirstFit;
    CarvedSize(bs[i], TotalSize(size));
    assert Allocated(bs, i, TotalSize(size))[i + 1..] == Carve(bs[i], TotalSize(size))[1..] + bs[i + 1..];
  }

  /** Sizes are multiples of 16, so what is not split off is 16 bytes or none. */
  lemma CarvedSize(b: Block, total: nat)
    requires b.size >= total && b.size % 16 == 0 && total % 16 == 0
    ensures var c := Carve(b, total);
      c[0].size <= total + 16 && c[0].size <= b.size
        && c[1..] == if c[0].size == b.size then [] else [Block(b.addr + c[0].size, b.size - c[0].size, true)]
  {
  }

  lemma AllocatedKeeps(bs: seq<Block>, i: nat, total: nat, start: nat, end: nat)
    requires Tiled(bs, start, end) && NoAdjacentFree(bs) && i < |bs| && bs[i].free && bs[i].size >= total > 0
      && total % 16 == 0
    ensures Tiled(Allocated(bs, i, total), start, end) && NoAdjacentFree(Allocated(bs, i, total))
  {
    assert bs == bs[..i] + bs[i..];
    var mid := TiledSplit(bs[..i], bs[i..], start, end);
    var c := Carve(bs[i], total);
    assert bs[i..][1..] == bs[i + 1..];
    assert c[0].size % 16 == 0;
    assert Tiled(c[1..], mid + c[0].size, mid + bs[i].size) by {
      if |c| > 1 {
        assert c[1..][1..] == [];
      }
    }
    assert Tiled(c, mid, mid + bs[i].size);
    TiledJoin(bs[..i], c, start, mid, mid + bs[i].size);
    TiledJoin(bs[..i] + c, bs[i + 1..], start, mid + bs[i].size, end);
    AllocatedApart(bs, i, total);
  }

  lemma AllocatedApart(bs: seq<Block>, i: nat, total: nat)
    requires NoAdjacentFree(bs) && i < |bs| && bs[i].free && bs[i].size >= total
    ensures NoAdjacentFree(Allocated(bs, i, total))
  {
    var r := Allocated(bs, i, total);
    var extra := |Carve(bs[i], total)| - 1;
    forall j | 0 <= j < |r| - 1 ensures !(r[j].free && r[j + 1].free) {
      if j > i {
        assert !(bs[j - extra].free && bs[j - extra + 1].free);
        assert j > i + extra ==> r[j].free == bs[j - extra].free;
      } else if j < i {
        assert !(bs[j].free && bs[j + 1].free);
      }
    }
  }

  /** Exactly one block has become live. */
  // Automatic induction over the sequence only gets in the way here.
  lemma {:induction false} AllocatedUsed(bs: seq<Block>, i: nat, total: nat)
    requires i < |bs| && bs[i].free && bs[i].size >= total
    ensures Used(Allocated(bs, i, total)) == Used(bs[..i]) + [Carve(bs[i], total)[0]] + Used(bs[i + 1..])
    ensures Used(bs) == Used(bs[..i]) + Used(bs[i + 1..])
  {
    var c := Carve(bs[i], total);
    UsedJoin(bs[..i] + c, bs[i + 1..]);
    UsedJoin(bs[..i], c);
    assert Used(c) == [c[0]] by {
      assert Used(c[1..]) == [] by {
        if |c| > 1 {
          assert c[1..][1..] == [];
        }
      }
    }
    assert bs == bs[..i] + [bs[i]] + bs[i + 1..];
    UsedJoin(bs[..i] + [bs[i]], bs[i + 1..]);
    UsedJoin(bs[..i], [bs[i]]);
    assert [bs[i]][1..] == [];
  }

  // ----- release -----

  /** Merging runs of free blocks from the left. */
  function Merge(bs: seq<Block>): seq<Block>
    decreases |bs|
  {
    if |bs| < 2 then bs
    else if bs[0].free && bs[1].free then Merge([Joined(bs[0], bs[1])] + bs[2..])
    else [bs[0]] + Merge(bs[1..])
  }

  function Joined(a: Block, b: Block): Block {
    a.(size := a.size + b.size)
  }

  lemma {:induction false} MergeKeeps(bs: seq<Block>, start: nat, end: nat)
    requires Tiled(bs, start, end)
    ensures Tiled(Merge(bs), start, end) && NoAdjacentFree(Merge(bs)) && Used(Merge(bs)) == Used(bs)
    ensures bs != [] ==> Merge(bs) != [] && Merge(bs)[0].free == bs[0].free
    decreases |bs|
  {
    if |bs| >= 2 {
      assert bs[1..][1..] == bs[2..];
      if bs[0].free && bs[1].free {
        var m := [Joined(bs[0], bs[1])] + bs[2..];
        assert m[1..] == bs[2..];
        MergeKeeps(m, start, end);
      } else {
        MergeKeeps(bs[1..], start + bs[0].size, end);
        assert Merge(bs)[1..] == Merge(bs[1..]);
      }
    }
  }

  function Released(bs: seq<Block>, i: nat): seq<Block>
    requires i < |bs|
  {
    Merge(bs[i := bs[i].(free := true)])
  }

  lemma ReleasedKeeps(bs: seq<Block>, i: nat, start: nat, end: nat)
    requires Tiled(bs, start, end) && i < |bs| && !bs[i].free
    ensures Tiled(Released(bs, i), start, end) && NoAdjacentFree(Released(bs, i))
    ensures Used(Released(bs, i)) == Used(bs[..i]) + Used(bs[i + 1..])
    ensures Used(bs) == Used(bs[..i]) + [bs[i]] + Used(bs[i + 1..])
  {
    hide Tiled, NoAdjacentFree, Used, Merge;
    FlagKeepsTiling(bs, i, true, start, end);
    MergeKeeps(bs[i := bs[i].(free := true)], start, end);
    UsedAround(bs, i, bs[i]);
    UsedAround(bs, i, bs[i].(free := true));
    assert bs[i := bs[i]] == bs;
  }

  /** The used blocks of a row in which block i is replaced. */
  lemma UsedAround(bs: seq<Block>, i: nat, b: Block)
    requires i < |bs|
    ensures Used(bs[i := b]) == Used(bs[..i]) + (if b.free then [] else [b]) + Used(bs[i + 1..])
  {
    UsedJoin(bs[..i] + [b], bs[i + 1..]);
    UsedJoin(bs[..i], [b]);
    assert bs[i := b] == bs[..i] + [b] + bs[i + 1..];
    assert Used([b]) == if b.free then [] else [b];
  }

  lemma {:induction false} FlagKeepsTiling(bs: seq<Block>, i: nat, flag: bool, start: nat, end: nat)
    requires Tiled(bs, start, end) && i < |bs|
    ensures Tiled(bs[i := bs[i].(free := flag)], start, end)
  {
    var r := bs[i := bs[i].(free := flag)];
    if i == 0 {
      assert r[1..] == bs[1..];
    } else {
      assert r[1..] == bs[1..][i - 1 := bs[i].(free := flag)];
      FlagKeepsTiling(bs[1..], i - 1, flag, start + bs[0].size, end);
    }
  }

  lemma OneBlock(start: nat, end: nat)
    requires start < end && (end - start) % 16 == 0
    ensures Tiled([Block(start, end - start, true)], start, end) && NoAdjacentFree([Block(start, end - start, true)])
  {
    assert [Block(start, end - start, true)][1..] == [];
  }

  /** Releasing what was just allocated restores the row exactly. */
  lemma ReleaseUndoesAllocate(bs: seq<Block>, i: nat, total: nat, start: nat, end: nat)
    requires Tiled(bs, start, end) && NoAdjacentFree(bs) && i < |bs| && bs[i].free && bs[i].size >= total > 0
      && total % 16 == 0
    ensures Released(Allocated(bs, i, total), i) == bs
  {
    var r := Allocated(bs, i, total);
    AllocatedKeeps(bs, i, total, start, end);
    AllocatedUsed(bs, i, total);
    ReleasedKeeps(r, i, start, end);
    assert r[..i] == bs[..i];
    assert r[i + 1..] == Carve(bs[i], total)[1..] + bs[i + 1..];
    UsedJoin(Carve(bs[i], total)[1..], bs[i + 1..]);
    assert Used(Carve(bs[i], total)[1..]) == [] by {
      if |Carve(bs[i], total)| > 1 {
        assert Carve(bs[i], total)[1..][1..] == [];
      }
    }
    DeterminedByUsed(Released(r, i), bs, start, end);
  }

  /** With nothing live the heap is the single block it started as. */
  lemma NothingLive(bs: seq<Block>, start: nat, end: nat)
    requires Tiled(bs, start, end) && NoAdjacentFree(bs) && Used(bs) == [] && start < end
    ensures bs == [Block(start, end - start, true)]
  {
    FreeUntil(bs, start, end);
  }

  // ----- the live payloads -----

  /** A pointer handed out and not given back. */
  ghost predicate Live(bs: seq<Block>, p: nat) {
    exists b :: b in bs && !b.free && p == b.addr + HEADER_SIZE
  }

  lemma {:induction false} UsedMembers(bs: seq<Block>, b: Block)
    ensures b in Used(bs) <==> b in bs && !b.free
  {
    if bs != [] {
      UsedMembers(bs[1..], b);
      assert b in bs <==> b == bs[0] || b in bs[1..];
    }
  }

  lemma LiveIsUsed(bs: seq<Block>, p: nat)
    ensures Live(bs, p) <==> exists b :: b in Used(bs) && p == b.addr + HEADER_SIZE
  {
    if Live(bs, p) {
      var b :| b in bs && !b.free && p == b.addr + HEADER_SIZE;
      UsedMembers(bs, b);
    }
    if exists b :: b in Used(bs) && p == b.addr + HEADER_SIZE {
      var b :| b in Used(bs) && p == b.addr + HEADER_SIZE;
      UsedMembers(bs, b);
    }
  }

  /** One live block more: its pointer is new, and the others are those there were. */
  lemma OneMore(less: seq<Block>, more: seq<Block>, a: seq<Block>, b: Block, c: seq<Block>, p: nat)
    requires Used(less) == a + c && Used(more) == a + [b] + c
    ensures Live(more, p) <==> Live(less, p) || p == b.addr + HEADER_SIZE
  {
    LiveIsUsed(less, p);
    LiveIsUsed(more, p);
    var l, m := Used(less), Used(more);
    assert b in m;
    assert forall x :: x in m <==> x in l || x == b;
  }

  /** Allocation adds exactly the returned pointer, which was not live. */
  lemma AllocatedLive(bs: seq<Block>, i: nat, total: nat, start: nat, end: nat, p: nat)
    requires Tiled(bs, start, end) && i < |bs| && bs[i].free && bs[i].size >= total
    ensures Live(Allocated(bs, i, total), p) <==> Live(bs, p) || p == bs[i].addr + HEADER_SIZE
    ensures !Live(bs, bs[i].addr + HEADER_SIZE)
  {
    AllocatedUsed(bs, i, total);
    OneMore(bs, Allocated(bs, i, total), Used(bs[..i]), Carve(bs[i], total)[0], Used(bs[i + 1..]), p);
    AddressOf(bs, start, end, i);
  }

  lemma AddressOf(bs: seq<Block>, start: nat, end: nat, i: nat)
    requires Tiled(bs, start, end) && i < |bs|
    ensures forall b :: b in bs && b.addr == bs[i].addr ==> b == bs[i]
  {
    forall b | b in bs && b.addr == bs[i].addr ensures b == bs[i] {
      var j :| 0 <= j < |bs| && bs[j] == b;
      TiledAt(bs, start, end, i);
      TiledAt(bs, start, end, j);
      if i < j {
        TiledApart(bs, start, end, i, j);
      } else if j < i {
        TiledApart(bs, start, end, j, i);
      }
    }
  }

  /** Release takes exactly the one pointer away. */
  lemma ReleasedLive(bs: seq<Block>, i: nat, start: nat, end: nat, p: nat)
    requires Tiled(bs, start, end) && i < |bs| && !bs[i].free
    ensures Live(Released(bs, i), p) <==> Live(bs, p) && p != bs[i].addr + HEADER_SIZE
  {
    var r := Released(bs, i);
    ReleasedKeeps(bs, i, start, end);
    OneMore(r, bs, Used(bs[..i]), bs[i], Used(bs[i + 1..]), p);
    if Live(r, bs[i].addr + HEADER_SIZE) {
      var b :| b in r && !b.free && b.addr == bs[i].addr;
      UsedMembers(r, b);
      UsedMembers(bs[..i], b);
      UsedMembers(bs[i + 1..], b);
      ElsewhereNot(bs, i, start, end, b);
      assert false;
    }
  }

  lemma ElsewhereNot(bs: seq<Block>, i: nat, start: nat, end: nat, b: Block)
    requires Tiled(bs, start, end) && i < |bs| && (b in bs[..i] || b in bs[i + 1..])
    ensures b.addr != bs[i].addr
  {
    var j :| 0 <= j < |bs| && j != i && bs[j] == b;
    TiledAt(bs, start, end, i);
    TiledAt(bs, start, end, j);
    if i < j {
      TiledApart(bs, start, end, i, j);
    } else {
      TiledApart(bs, start, end, j, i);
    }
  }

  lemma LiveIndex(bs: seq<Block>, p: nat) returns (i: nat)
    requires Live(bs, p)
    ensures i < |bs| && !bs[i].free && p == bs[i].addr + HEADER_SIZE
  {
    var b :| b in bs && !b.free && p == b.addr + HEADER_SIZE;
    i :| 0 <= i < |bs| && bs[i] == b;
  }

  lemma NoneLive(bs: seq<Block>)
    requires forall p :: !Live(bs, p)
    ensures Used(bs) == []
  {
    if Used(bs) != [] {
      UsedMembers(bs, Used(bs)[0]);
      assert Live(bs, Used(bs)[0].addr + HEADER_SIZE);
    }
  }

  /** Clearing a new payload touches no byte of a payload that was live. */
  lemma LiveBytesKept(bs: seq<Block>, i: nat, total: nat, start: nat, end: nat, j: nat, x: nat)
    requires Tiled(bs, start, end) && i < |bs| && bs[i].free && bs[i].size >= total && j < |bs| && !bs[j].free
    requires bs[j].addr + HEADER_SIZE <= x < bs[j].addr + bs[j].size
    ensures var c := Carve(bs[i], total)[0]; !(c.addr + HEADER_SIZE <= x < c.addr + c.size)
  {
    PayloadsDisjoint(bs, start, end, j, i, x);
  }
}
