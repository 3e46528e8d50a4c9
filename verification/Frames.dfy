/** Physical memory as frames: what is reserved at boot, and the first-free allocator over the rest. */
module Frames {
  import opened Options

  const FRAME_SIZE: nat := 4096
  const TOTAL_FRAMES: nat := 16384
  const LIMIT: nat := 0x0400_0000

  datatype Region = Region(start: nat, end: nat, isFree: bool)

  /** The regions the kernel adds for itself. */
  const KERNEL_REGIONS: seq<Region> := [
    Region(0, 0x0010_0000, false),
    Region(0x0010_0000, 0x0040_0000, false),
    Region(0x0040_0000, 0x0050_0000, false),
    Region(0x0050_0000, 0x0060_0000, false),
    Region(0x0060_0000, 0x0064_0000, false),
    Region(0x0080_0000, 0x0100_0000, false),
    Region(0xFD00_0000, 0xFE00_0000, false)
  ]

  /** Frame j is reserved by region r: it starts in it, and is not its last, unfinished frame. */
  predicate Covers(r: Region, j: nat) {
    !r.isFree && r.start / 4096 <= j < r.end / 4096
  }

  ghost predicate Reserved(rs: seq<Region>, j: nat) {
    exists i :: 0 <= i < |rs| && Covers(rs[i], j)
  }

  lemma ReservedWhen(rs: seq<Region>, j: nat)
    ensures Reserved(rs, j) <==> exists r :: r in rs && !r.isFree && r.start / 4096 <= j < r.end / 4096
  {
    if r :| r in rs && !r.isFree && r.start / 4096 <= j < r.end / 4096 {
      var i :| 0 <= i < |rs| && rs[i] == r;
      assert Covers(rs[i], j);
    }
  }

  /** No reserved region goes past the frames there are. */
  ghost predicate Inside(rs: seq<Region>) {
    forall i :: 0 <= i < |rs| && !rs[i].isFree && rs[i].start / 4096 < rs[i].end / 4096 ==>
      rs[i].end / 4096 <= TOTAL_FRAMES
  }

  /** The frame buffer's region is not inside, so the kernel's own list never is. */
  lemma KernelRegionsOutside(rs: seq<Region>)
    ensures !Inside(rs + KERNEL_REGIONS)
  {
    var r := (rs + KERNEL_REGIONS)[|rs| + 6];
    assert r == KERNEL_REGIONS[6];
    assert r.start / 4096 < r.end / 4096 && r.end / 4096 > TOTAL_FRAMES;
  }

  /** Every byte of a region has its frame reserved exactly when the region ends on a frame boundary. */
  lemma BytesCovered(r: Region)
    requires !r.isFree && r.start < r.end
    ensures (forall x :: r.start <= x < r.end ==> Covers(r, x / 4096)) <==> r.end % 4096 == 0
  {
    if r.end % 4096 == 0 {
      forall x | r.start <= x < r.end ensures Covers(r, x / 4096) {
      }
    } else {
      assert !Covers(r, (r.end - 1) / 4096);
    }
  }

  /** The frames that are free. */
  ghost function FreeFrames(isFree: seq<bool>): set<nat> {
    set j | 0 <= j < |isFree| && isFree[j]
  }

  lemma OneTaken(before: seq<bool>, after: seq<bool>, f: nat)
    requires f < |before| && before[f] && after == before[f := false]
    ensures |FreeFrames(after)| + 1 == |FreeFrames(before)|
  {
    assert FreeFrames(before) == FreeFrames(after) + {f};
  }

  lemma NoneFree(isFree: seq<bool>)
    ensures (forall j :: 0 <= j < |isFree| ==> !isFree[j]) <==> FreeFrames(isFree) == {}
  {
    if j :| 0 <= j < |isFree| && isFree[j] {
      assert j in FreeFrames(isFree);
    }
  }

  class FrameTable {
    const isFree: array<bool>
    /** Frame numbers past the table that have been written to. */
    ghost var strays: set<nat>

    constructor ()
      ensures isFree.Length == TOTAL_FRAMES && fresh(isFree) && strays == {}
      ensures forall j :: 0 <= j < TOTAL_FRAMES ==> isFree[j]
    {
      isFree := new bool[TOTAL_FRAMES](_ => true);
      strays := {};
    }

    /** Marks the frames of every reserved region. The index is not checked: a region that goes past the
        table writes past it. */
    method SettingReservedFrames(regions: seq<Region>)
      requires isFree.Length == TOTAL_FRAMES && (forall j :: 0 <= j < TOTAL_FRAMES ==> isFree[j]) && strays == {}
      modifies this`strays, isFree
      ensures forall j :: 0 <= j < TOTAL_FRAMES ==> (isFree[j] <==> !Reserved(regions, j))
      ensures forall j :: 0 <= j < 16384 ==>
        (isFree[j] <==> forall r :: r in regions && !r.isFree ==> j < r.start / 4096 || j >= r.end / 4096)
      ensures forall j :: j in strays <==> j >= TOTAL_FRAMES && Reserved(regions, j)
      ensures strays == {} <==> Inside(regions)
    {
      for i := 0 to |regions|
        invariant forall j :: 0 <= j < TOTAL_FRAMES ==> (isFree[j] <==> !Reserved(regions[..i], j))
        invariant forall j :: j in strays <==> j >= TOTAL_FRAMES && Reserved(regions[..i], j)
      {
        MarkRegion(regions[i], regions[..i]);
        assert regions[..i] + [regions[i]] == regions[..i + 1];
      }
      assert regions[..|regions|] == regions;
      NoStrays(regions, strays);
      forall j | 0 <= j < TOTAL_FRAMES
        ensures Reserved(regions, j) <==> exists r :: r in regions && !r.isFree && r.start / 4096 <= j < r.end / 4096
      {
        ReservedWhen(regions, j);
      }
    }

    method MarkRegion(r: Region, ghost before: seq<Region>)
      requires isFree.Length == TOTAL_FRAMES
      requires forall j :: 0 <= j < TOTAL_FRAMES ==> (isFree[j] <==> !Reserved(before, j))
      requires forall j :: j in strays <==> j >= TOTAL_FRAMES && Reserved(before, j)
      modifies this`strays, isFree
      ensures forall j :: 0 <= j < TOTAL_FRAMES ==> (isFree[j] <==> !Reserved(before + [r], j))
      ensures forall j :: j in strays <==> j >= TOTAL_FRAMES && Reserved(before + [r], j)
    {
      hide Covers, Reserved;
      ghost var was, out := isFree[..], strays;
      forall j: nat ensures Reserved(before + [r], j) <==> Reserved(before, j) || Covers(r, j) {
        OneMoreRegion(before, r, j);
      }
      CoversIs(r);
      if !r.isFree {
        var startFrame, endFrame := r.start / 4096, r.end / 4096;
        var j := startFrame;
        while j < endFrame
          invariant startFrame <= j && (j <= endFrame || j == startFrame)
          invariant forall k :: 0 <= k < TOTAL_FRAMES ==> (isFree[k] <==> was[k] && !(startFrame <= k < j))
          invariant forall k :: k in strays <==> k in out || (k >= TOTAL_FRAMES && startFrame <= k < j)
        {
          if j < TOTAL_FRAMES {
            isFree[j] := false;
          } else {
            strays := strays + {j};
          }
          j := j + 1;
        }
      }
    }

    static lemma CoversIs(r: Region)
      ensures forall j: nat :: Covers(r, j) <==> !r.isFree && r.start / 4096 <= j < r.end / 4096
    {
    }

    static lemma OneMoreRegion(rs: seq<Region>, r: Region, j: nat)
      ensures Reserved(rs + [r], j) <==> Reserved(rs, j) || Covers(r, j)
    {
      hide Covers;
      if Reserved(rs, j) {
        var i :| 0 <= i < |rs| && Covers(rs[i], j);
        assert Covers((rs + [r])[i], j);
      }
      if Covers(r, j) {
        assert Covers((rs + [r])[|rs|], j);
      }
    }

    static lemma NoStrays(rs: seq<Region>, strays: set<nat>)
      requires forall j :: j in strays <==> j >= TOTAL_FRAMES && Reserved(rs, j)
      ensures strays == {} <==> Inside(rs)
    {
      if strays == {} {
        forall i | 0 <= i < |rs| && !rs[i].isFree
          && rs[i].start / 4096 < rs[i].end / 4096 ensures rs[i].end / 4096 <= TOTAL_FRAMES {
          var j := rs[i].end / 4096 - 1;
          assert Covers(rs[i], j);
          assert j !in strays;
        }
      } else {
        var j :| j in strays;
        var i :| 0 <= i < |rs| && Covers(rs[i], j);
        assert !Inside(rs);
      }
    }

    /** Takes one given frame, whether it was free or not. */
    method AllocateFrame(address: nat) returns (r: nat)
      requires isFree.Length == TOTAL_FRAMES && address < LIMIT
      modifies isFree
      ensures r == address / 4096 * 4096
      ensures isFree[..] == old(isFree[..])[address / 4096 := false]
    {
      isFree[address / 4096] := false;
      r := address / 4096 * 4096;
    }

    /** Gives a frame back; fails when it is free already. */
    method FreeFrame(address: nat) returns (r: Option<nat>)
      requires isFree.Length == TOTAL_FRAMES && address < LIMIT
      modifies isFree
      ensures r.None? <==> old(isFree[address / 4096])
      ensures r.Some? ==> r.value == address / 4096 * 4096
      ensures isFree[..] == old(isFree[..])[address / 4096 := true]
    {
      if isFree[address / 4096] {
        assert isFree[..] == isFree[..][address / 4096 := true];
        return None;
      }
      isFree[address / 4096] := true;
      r := Some(address / 4096 * 4096);
    }

    /** Takes the lowest free frame; None when all are taken. */
    method AllocateFreeFrame() returns (r: Option<nat>)
      requires isFree.Length == TOTAL_FRAMES
      modifies isFree
      ensures r.None? <==> forall j :: 0 <= j < TOTAL_FRAMES ==> !old(isFree[j])
      ensures r.None? ==> isFree[..] == old(isFree[..])
      ensures r.Some? ==> TookFirst(old(isFree[..]), isFree[..], r.value)
    {
      for i := 0 to TOTAL_FRAMES
        invariant isFree[..] == old(isFree[..])
        invariant forall j :: 0 <= j < i ==> !isFree[j]
      {
        if isFree[i] {
          isFree[i] := false;
          return Some(i * 4096);
        }
      }
      r := None;
    }

    /** The frame at this address was the lowest free one and is taken now; no other has changed. */
    static ghost predicate TookFirst(before: seq<bool>, after: seq<bool>, address: nat) {
      var f := address / 4096;
      && address == f * 4096 && f < |before| && before[f] && (forall j :: 0 <= j < f ==> !before[j])
      && after == before[f := false]
    }
  }

  /** Allocating and freeing are inverse: the table is as before, and the next allocation is the same one. */
  lemma FreeUndoesAllocate(before: seq<bool>, after: seq<bool>, address: nat)
    requires FrameTable.TookFirst(before, after, address)
    ensures after[address / 4096 := true] == before
  {
  }
}
