/** Two-level page tables kept in allocated frames, and the flat map from pages to frames they stand for. */
module Paging {
  import opened Options
  import opened Frames

  const PAGES: nat := 0x10_0000
  const NUM_PAGE_TABLES_KERNEL: nat := 16
  const PAGING_STRUCT_START: nat := 0x0050_0000
  const KERNEL_VIRTUAL_BASE: nat := 0xC000_0000
  const USER_SPACE_START: nat := 0x4000_0000
  const USER_STACK_TOP: nat := 0x4100_0000
  const FRAMEBUFFER_START: nat := 0xFD00_0000
  const FRAMEBUFFER_END: nat := 0xFDFF_FFFF

  datatype Entry = Entry(present: bool, frame: nat)

  /** The directory, and every frame that has been set up as a page table. */
  datatype Tables = Tables(directory: seq<Entry>, tables: map<nat, seq<Entry>>)

  const ABSENT: Entry := Entry(false, 0)

  /** The tables in use lie in different frames. */
  ghost predicate WellFormed(t: Tables) {
    && |t.directory| == 1024
    && (forall d :: 0 <= d < 1024 && t.directory[d].present ==>
      t.directory[d].frame in t.tables && |t.tables[t.directory[d].frame]| == 1024)
    && (forall d, e :: 0 <= d < e < 1024 && t.directory[d].present && t.directory[e].present ==>
      t.directory[d].frame != t.directory[e].frame)
  }

  /** The flat map: the frame a page is mapped to. */
  function PageFrame(t: Tables, page: nat): Option<nat> {
    if page / 1024 < |t.directory| && t.directory[page / 1024].present
      && t.directory[page / 1024].frame in t.tables then
      var table := t.tables[t.directory[page / 1024].frame];
      if page % 1024 < |table| && table[page % 1024].present then Some(table[page % 1024].frame) else None
    else None
  }

  /** Where an address goes. */
  function Translate(t: Tables, va: nat): Option<nat> {
    match PageFrame(t, va / 4096)
    case None => None
    case Some(f) => Some(f * 4096 + va % 4096)
  }

  ghost predicate Unused(t: Tables, f: nat) {
    forall d :: 0 <= d < |t.directory| && t.directory[d].present ==> t.directory[d].frame != f
  }

  // ----- how many frames the tables take -----

  /** The places of the directory that have a table. */
  ghost function Slots(directory: seq<Entry>): set<nat> {
    set d | 0 <= d < |directory| && directory[d].present
  }

  /** The places of the tables for n pages from page first on. */
  ghost function Span(first: nat, n: nat): set<nat> {
    if n == 0 then {} else Span(first, n - 1) + {(first + n - 1) / 1024}
  }

  /** What is free and what the tables hold. */
  ghost function Stock(directory: seq<Entry>, isFree: seq<bool>): nat {
    |FreeFrames(isFree)| + |Slots(directory)|
  }

  lemma SlotAdded(directory: seq<Entry>, d: nat, f: nat)
    requires d < |directory| && !directory[d].present
    ensures Slots(directory[d := Entry(true, f)]) == Slots(directory) + {d}
    ensures |Slots(directory[d := Entry(true, f)])| == |Slots(directory)| + 1
  {
    assert Slots(directory[d := Entry(true, f)]) == Slots(directory) + {d};
  }

  lemma SlotThere(directory: seq<Entry>, d: nat)
    requires d < |directory|
    ensures directory[d].present <==> d in Slots(directory)
    ensures directory[d].present ==> Slots(directory) + {d} == Slots(directory)
  {
  }

  lemma {:induction false} SpanMember(first: nat, n: nat, d: nat)
    ensures d in Span(first, n) <==> n > 0 && first / 1024 <= d <= (first + n - 1) / 1024
  {
    if n > 1 {
      SpanMember(first, n - 1, d);
      assert (first + n - 1) / 1024 <= (first + n - 2) / 1024 + 1;
    }
  }

  lemma {:induction false} SpanGrows(first: nat, m: nat, n: nat)
    requires m <= n
    ensures Span(first, m) <= Span(first, n)
    decreases n
  {
    if m < n {
      SpanGrows(first, m, n - 1);
    }
  }

  lemma {:induction false} SpanSize(first: nat, n: nat)
    requires n > 0
    ensures |Span(first, n)| == (first + n - 1) / 1024 - first / 1024 + 1
  {
    if n > 1 {
      SpanSize(first, n - 1);
      SpanMember(first, n - 1, (first + n - 1) / 1024);
      assert (first + n - 1) / 1024 <= (first + n - 2) / 1024 + 1;
      if (first + n - 1) / 1024 == (first + n - 2) / 1024 {
        assert Span(first, n) == Span(first, n - 1);
      }
    } else {
      assert Span(first, n) == {first / 1024};
    }
  }

  lemma SizeOfUnion(a: set<nat>, b: set<nat>)
    ensures |a + b| == |a| + |b - a|
  {
    assert a + b == a + (b - a);
  }

  /** With the stock kept, enough frames were free when all tables are there. */
  lemma AllThere(free0: nat, slots0: set<nat>, span: set<nat>, free: nat, slots: set<nat>)
    requires free + |slots| == free0 + |slots0| && slots == slots0 + span
    ensures free0 >= |span - slots0| && free == free0 - |span - slots0|
  {
    SizeOfUnion(slots0, span);
  }

  /** With the stock kept, too few were free when none is left and a table is missing. */
  lemma OneMissing(free0: nat, slots0: set<nat>, span: set<nat>, slots: set<nat>, d: nat)
    requires |slots| == free0 + |slots0| && slots0 <= slots <= slots0 + span && d in span && d !in slots
    ensures free0 < |span - slots0|
  {
    SizeOfUnion(slots0, span);
    Smaller(slots, slots0 + span, d);
  }

  lemma Smaller(a: set<nat>, b: set<nat>, d: nat)
    requires a <= b && d in b && d !in a
    ensures |a| < |b|
  {
    assert b == a + (b - a);
    assert d in b - a;
  }

  function EmptyTable(): (s: seq<Entry>)
    ensures |s| == 1024 && forall i :: 0 <= i < 1024 ==> s[i] == ABSENT
  {
    seq(1024, _ => ABSENT)
  }

  /** An empty table in an unused frame changes no translation. */
  lemma AddTable(t: Tables, d: nat, f: nat)
    requires WellFormed(t) && d < 1024 && !t.directory[d].present && Unused(t, f)
    ensures var u := Tables(t.directory[d := Entry(true, f)], t.tables[f := EmptyTable()]);
      WellFormed(u) && forall q :: 0 <= q < PAGES ==> PageFrame(u, q) == PageFrame(t, q)
  {
    var u := Tables(t.directory[d := Entry(true, f)], t.tables[f := EmptyTable()]);
    forall q | 0 <= q < PAGES ensures PageFrame(u, q) == PageFrame(t, q) {
      var e := q / 1024;
      assert e < 1024;
      if e == d {
        assert q % 1024 < 1024;
      }
    }
  }

  function SetEntry(t: Tables, page: nat, f: nat): Tables
    requires page / 1024 < |t.directory| && t.directory[page / 1024].frame in t.tables
    requires page % 1024 < |t.tables[t.directory[page / 1024].frame]|
  {
    var g := t.directory[page / 1024].frame;
    t.(tables := t.tables[g := t.tables[g][page % 1024 := Entry(true, f)]])
  }

  /** Writing one entry changes the translation of exactly one page, because no table is used twice. */
  lemma SetOne(t: Tables, page: nat, f: nat)
    requires WellFormed(t) && page < PAGES && t.directory[page / 1024].present
    ensures page / 1024 < 1024 && t.directory[page / 1024].frame in t.tables
    ensures page % 1024 < |t.tables[t.directory[page / 1024].frame]|
    ensures WellFormed(SetEntry(t, page, f))
    ensures forall q :: 0 <= q < PAGES ==>
      PageFrame(SetEntry(t, page, f), q) == if q == page then Some(f) else PageFrame(t, q)
  {
    var u := SetEntry(t, page, f);
    forall q | 0 <= q < PAGES ensures PageFrame(u, q) == if q == page then Some(f) else PageFrame(t, q) {
      var d, e := page / 1024, q / 1024;
      assert e < 1024;
      if d != e && t.directory[e].present {
        assert t.directory[d].frame != t.directory[e].frame;
      }
      if d == e && page % 1024 == q % 1024 {
        assert q == page;
      }
    }
  }

  /** The flat map after a change on some pages. */
  ghost predicate Remapped(t: Tables, u: Tables, page: nat, f: nat) {
    forall q :: 0 <= q < PAGES ==> PageFrame(u, q) == if q == page then Some(f) else PageFrame(t, q)
  }

  ghost predicate SameMap(t: Tables, u: Tables) {
    forall q :: 0 <= q < PAGES ==> PageFrame(u, q) == PageFrame(t, q)
  }

  /** Pages first, first + 1, ... are mapped to frames from, from + 1, ...; the others are as before. */
  ghost predicate RangeMapped(t: Tables, u: Tables, first: nat, from: nat, n: nat) {
    forall q :: 0 <= q < PAGES ==>
      PageFrame(u, q) == if first <= q < first + n then Some(from + (q - first)) else PageFrame(t, q)
  }

  /** Every address of an aligned region goes to the place as far into the physical one. */
  lemma RegionTranslates(t: Tables, u: Tables, v: nat, p: nat, size: nat, i: nat)
    requires v % 4096 == 0 && p % 4096 == 0 && i < size && v + size <= 0x1_0000_0000
    requires RangeMapped(t, u, v / 4096, p / 4096, (size + 4095) / 4096)
    ensures Translate(u, v + i) == Some(p + i)
  {
    hide PageFrame;
    var q := (v + i) / 4096;
    assert q == v / 4096 + i / 4096 && (v + i) % 4096 == i % 4096;
    assert q < PAGES && i / 4096 < (size + 4095) / 4096;
    assert PageFrame(u, q) == Some(p / 4096 + i / 4096);
  }

  class PageTables {
    const frames: FrameTable
    var pdFrame: nat
    var directory: seq<Entry>
    var tables: map<nat, seq<Entry>>

    ghost function T(): Tables
      reads this
    {
      Tables(directory, tables)
    }

    /** The directory and all tables lie in frames that are taken, so no allocation hands them out again. */
    ghost predicate Valid()
      reads this, frames, frames.isFree
    {
      && frames.isFree.Length == TOTAL_FRAMES && WellFormed(T())
      && pdFrame < TOTAL_FRAMES && !frames.isFree[pdFrame] && Unused(T(), pdFrame)
      && Held(directory, frames.isFree[..])
    }

    static ghost predicate Held(directory: seq<Entry>, isFree: seq<bool>) {
      forall d :: 0 <= d < |directory| && directory[d].present ==>
        directory[d].frame < |isFree| && !isFree[directory[d].frame]
    }

    /** Frames are only taken, not given back. */
    static ghost predicate Fewer(before: seq<bool>, after: seq<bool>) {
      |before| == |after| && forall j :: 0 <= j < |after| && after[j] ==> before[j]
    }

    /** No frame that was taken for something else has become a table. */
    static ghost predicate StillUnused(t: Tables, u: Tables, isFree: seq<bool>) {
      forall f :: 0 <= f < |isFree| && !isFree[f] && Unused(t, f) ==> Unused(u, f)
    }

    constructor (frames: FrameTable)
      ensures this.frames == frames && directory == [] && tables == map[]
    {
      this.frames := frames;
      pdFrame, directory, tables := 0, [], map[];
    }

    /** The table for an address, made when there is none; false when no frame is left for it. */
    method GetOrCreatePageTable(va: nat) returns (ok: bool)
      requires Valid() && va < 0x1_0000_0000
      modifies this`directory, this`tables, frames.isFree
      ensures Valid() && SameMap(old(T()), T())
      ensures ok ==> T().directory[va / 0x40_0000].present
      ensures ok <==> va / 0x40_0000 in old(Slots(directory)) || old(FreeFrames(frames.isFree[..])) != {}
      ensures ok ==> Slots(directory) == old(Slots(directory)) + {va / 0x40_0000}
      ensures !ok ==> T() == old(T()) && frames.isFree[..] == old(frames.isFree[..])
      ensures Stock(directory, frames.isFree[..]) == old(Stock(directory, frames.isFree[..]))
      ensures Fewer(old(frames.isFree[..]), frames.isFree[..]) && StillUnused(old(T()), T(), old(frames.isFree[..]))
    {
      hide PageFrame, FreeFrames, Slots;
      ok := true;
      var d := va / 0x40_0000;
      SlotThere(directory, d);
      NoneFree(frames.isFree[..]);
      if !directory[d].present {
        ghost var before := frames.isFree[..];
        var f := frames.AllocateFreeFrame();
        if f.None? {
          return false;
        }
        OneTaken(before, frames.isFree[..], f.value / 4096);
        SlotAdded(directory, d, f.value / 4096);
        assert before[f.value / 4096];
        ghost var t := T();
        AddTable(t, d, f.value / 4096);
        tables := tables[f.value / 4096 := EmptyTable()];
        directory := directory[d := Entry(true, f.value / 4096)];
      }
    }

    /** Maps one page. */
    method MapPage(va: nat, pa: nat) returns (ok: bool)
      requires Valid() && va < 0x1_0000_0000 && pa < 0x1_0000_0000
      modifies this`directory, this`tables, frames.isFree
      ensures Valid()
      ensures if ok then Remapped(old(T()), T(), va / 4096, pa / 4096) else T() == old(T())
      ensures ok <==> va / 0x40_0000 in old(Slots(directory)) || old(FreeFrames(frames.isFree[..])) != {}
      ensures ok ==> Slots(directory) == old(Slots(directory)) + {va / 0x40_0000}
      ensures !ok ==> frames.isFree[..] == old(frames.isFree[..])
      ensures Stock(directory, frames.isFree[..]) == old(Stock(directory, frames.isFree[..]))
      ensures Fewer(old(frames.isFree[..]), frames.isFree[..]) && StillUnused(old(T()), T(), old(frames.isFree[..]))
    {
      hide PageFrame, FreeFrames, Slots, Stock;
      ok := GetOrCreatePageTable(va);
      if !ok {
        return;
      }
      ghost var t := T();
      SetOne(t, va / 4096, pa / 4096);
      var g := directory[va / 0x40_0000].frame;
      tables := tables[g := tables[g][va / 4096 % 1024 := Entry(true, pa / 4096)]];
      assert T() == SetEntry(t, va / 4096, pa / 4096);
    }

    /** Maps a region page by page. */
    method MapMemoryRegion(vStart: nat, size: nat, pStart: nat) returns (ok: bool)
      requires Valid() && vStart + size <= 0x1_0000_0000 && pStart + size <= 0x1_0000_0000
      modifies this`directory, this`tables, frames.isFree
      ensures Valid() && (ok ==> RangeMapped(old(T()), T(), vStart / 4096, pStart / 4096, (size + 4095) / 4096))
      ensures var need := Span(vStart / 4096, (size + 4095) / 4096) - old(Slots(directory));
        && (ok <==> old(|FreeFrames(frames.isFree[..])|) >= |need|)
        && (ok ==> Slots(directory) == old(Slots(directory)) + need
                   && |FreeFrames(frames.isFree[..])| == old(|FreeFrames(frames.isFree[..])|) - |need|)
      ensures Fewer(old(frames.isFree[..]), frames.isFree[..]) && StillUnused(old(T()), T(), old(frames.isFree[..]))
    {
      hide PageFrame, Valid, FreeFrames, Slots, Span;
      ghost var t := T();
      ghost var free0, slots0, span := FreeFrames(frames.isFree[..]), Slots(directory),
        Span(vStart / 4096, (size + 4095) / 4096);
      NoSpan(vStart / 4096);
      var v, p, end := vStart, pStart, vStart + size;
      ghost var n := 0;
      while v < end
        invariant Valid() && v == vStart + 4096 * n && p == pStart + 4096 * n && n <= (size + 4095) / 4096
        invariant RangeMapped(t, T(), vStart / 4096, pStart / 4096, n)
        invariant Slots(directory) == slots0 + Span(vStart / 4096, n)
        invariant Stock(directory, frames.isFree[..]) == |free0| + |slots0|
        invariant Fewer(old(frames.isFree[..]), frames.isFree[..]) && StillUnused(t, T(), old(frames.isFree[..]))
        decreases end - v
      {
        ghost var u, free := T(), frames.isFree[..];
        assert v / 4096 == vStart / 4096 + n && p / 4096 == pStart / 4096 + n;
        assert v / 0x40_0000 == (vStart / 4096 + n) / 1024;
        assert Span(vStart / 4096, n + 1) == Span(vStart / 4096, n) + {v / 0x40_0000} by {
          SpanNext(vStart / 4096, n);
        }
        SpanGrows(vStart / 4096, n, (size + 4095) / 4096);
        SpanGrows(vStart / 4096, n + 1, (size + 4095) / 4096);
        ok := MapPage(v, p);
        if !ok {
          OneMissing(|free0|, slots0, span, Slots(directory), v / 0x40_0000);
          return;
        }
        v := v + 4096;
        p := p + 4096;
        n := n + 1;
      }
      AllThere(|free0|, slots0, span, |FreeFrames(frames.isFree[..])|, Slots(directory));
      assert slots0 + span == slots0 + (span - slots0);
      ok := true;
    }

    static lemma NoSpan(first: nat)
      ensures Span(first, 0) == {}
    {
    }

    static lemma SpanNext(first: nat, n: nat)
      ensures Span(first, n + 1) == Span(first, n) + {(first + n) / 1024}
    {
    }

    /** Walks the two levels for the low 32 bits of an address; 0 when a level is missing. */
    method TranslateVirtualToPhysical(virtualAddress: nat) returns (r: nat)
      requires Valid()
      ensures r == match Translate(T(), virtualAddress % 0x1_0000_0000) case None => 0 case Some(p) => p
    {
      var va := virtualAddress % 0x1_0000_0000;
      var pdIndex, ptIndex, offset := va / 0x40_0000, va / 4096 % 1024, va % 4096;
      if !directory[pdIndex].present {
        return 0;
      }
      var table := tables[directory[pdIndex].frame];
      if !table[ptIndex].present {
        return 0;
      }
      r := table[ptIndex].frame * 4096 + offset;
    }

    // ----- start-up -----

    /** A page table for the 4 MB number d, mapping them to themselves. */
    static function IdentityTable(d: nat): (s: seq<Entry>)
      ensures |s| == 1024 && forall i :: 0 <= i < 1024 ==> s[i] == Entry(true, d * 1024 + i)
    {
      seq(1024, i requires 0 <= i < 1024 => Entry(true, d * 1024 + i))
    }

    static lemma AddIdentity(t: Tables, d: nat, f: nat)
      requires WellFormed(t) && d < 1024 && !t.directory[d].present && Unused(t, f)
      ensures var u := Tables(t.directory[d := Entry(true, f)], t.tables[f := IdentityTable(d)]);
        WellFormed(u) && RangeMapped(t, u, d * 1024, d * 1024, 1024)
    {
      var u := Tables(t.directory[d := Entry(true, f)], t.tables[f := IdentityTable(d)]);
      forall q | 0 <= q < PAGES
        ensures PageFrame(u, q) == if d * 1024 <= q < d * 1024 + 1024 then Some(d * 1024 + (q - d * 1024))
          else PageFrame(t, q)
      {
        var e := q / 1024;
        assert e < 1024 && q == e * 1024 + q % 1024;
      }
    }

    static lemma RangesJoin(t: Tables, u: Tables, v: Tables, n: nat)
      requires RangeMapped(t, u, 0, 0, n) && RangeMapped(u, v, n, n, 1024)
      ensures RangeMapped(t, v, 0, 0, n + 1024)
    {
      hide PageFrame;
      forall q | 0 <= q < PAGES ensures PageFrame(v, q) == if 0 <= q < n + 1024 then Some(0 + (q - 0))
        else PageFrame(t, q) {
      }
    }

    /** One more identity table. */
    method AddLowTable(tableNum: nat) returns (ok: bool)
      requires Valid() && tableNum < NUM_PAGE_TABLES_KERNEL && Slots(directory) == Below(tableNum)
      modifies this`directory, this`tables, frames.isFree
      ensures ok <==> old(FreeFrames(frames.isFree[..])) != {}
      ensures ok ==> Valid() && RangeMapped(old(T()), T(), tableNum * 1024, tableNum * 1024, 1024)
      ensures ok ==>
        Slots(directory) == Below(tableNum + 1)
        && |FreeFrames(frames.isFree[..])| + 1 == old(|FreeFrames(frames.isFree[..])|)
    {
      hide PageFrame, RangeMapped, IdentityTable, FreeFrames, Slots, Below;
      ghost var before := frames.isFree[..];
      NoneFree(before);
      NotBelow(directory, tableNum);
      var pt := frames.AllocateFreeFrame();
      if pt.None? {
        return false;
      }
      assert before[pt.value / 4096];
      OneTaken(before, frames.isFree[..], pt.value / 4096);
      SlotAdded(directory, tableNum, pt.value / 4096);
      BelowNext(tableNum);
      AddIdentity(T(), tableNum, pt.value / 4096);
      tables := tables[pt.value / 4096 := IdentityTable(tableNum)];
      directory := directory[tableNum := Entry(true, pt.value / 4096)];
      ok := true;
    }

    /** The directory, and the tables for the low 64 MB. */
    method MapLow() returns (ok: bool)
      requires frames.isFree.Length == TOTAL_FRAMES
      modifies this, frames.isFree
      ensures ok ==> Valid() && RangeMapped(Tables(EmptyTable(), map[]), T(), 0, 0, 16384)
      ensures var free0 := old(FreeFrames(frames.isFree[..])) - {PD_FRAME};
        && (ok <==> |free0| >= 16)
        && (ok ==> Slots(directory) == Below(16) && |FreeFrames(frames.isFree[..])| == |free0| - 16)
    {
      hide PageFrame, RangeMapped, EmptyTable, IdentityTable, FreeFrames, Slots, Below;
      ghost var all := frames.isFree[..];
      var pd := frames.AllocateFrame(PAGING_STRUCT_START);
      PdTaken(all, frames.isFree[..]);
      ghost var free0 := FreeFrames(frames.isFree[..]);
      pdFrame := pd / 4096;
      directory := EmptyTable();
      tables := map[];
      ghost var t := T();
      NothingMapped();
      NoSlots();
      for tableNum := 0 to NUM_PAGE_TABLES_KERNEL
        invariant Valid() && RangeMapped(t, T(), 0, 0, tableNum * 1024)
        invariant Slots(directory) == Below(tableNum)
        invariant |FreeFrames(frames.isFree[..])| + tableNum == |free0|
      {
        ghost var u := T();
        ok := AddLowTable(tableNum);
        if !ok { return; }
        RangesJoin(t, u, T(), tableNum * 1024);
      }
      ok := true;
    }

    static const PD_FRAME: nat := 0x500

    ghost static function Below(n: nat): set<nat> {
      if n == 0 then {} else Below(n - 1) + {n - 1}
    }

    static lemma BelowNext(n: nat)
      ensures Below(n + 1) == Below(n) + {n}
    {
    }

    static lemma {:induction false} BelowMember(n: nat, d: nat)
      ensures d in Below(n) <==> d < n
    {
      if n > 0 {
        BelowMember(n - 1, d);
      }
    }

    static lemma NotBelow(directory: seq<Entry>, n: nat)
      requires n < |directory| && Slots(directory) == Below(n)
      ensures !directory[n].present
    {
      BelowMember(n, n);
      SlotThere(directory, n);
    }

    static lemma NoSlots()
      ensures Slots(EmptyTable()) == {} == Below(0)
    {
    }

    static lemma PdTaken(before: seq<bool>, after: seq<bool>)
      requires PD_FRAME < |before| && after == before[PD_FRAME := false]
      ensures FreeFrames(after) == FreeFrames(before) - {PD_FRAME}
    {
    }

    static lemma NothingMapped()
      ensures var t := Tables(EmptyTable(), map[]); WellFormed(t) && RangeMapped(t, t, 0, 0, 0)
      ensures forall f :: Unused(Tables(EmptyTable(), map[]), f)
    {
    }

    /** One zeroed frame of its own for a user page. */
    method MapUserPage(va: nat) returns (ok: bool, f: nat)
      requires Valid() && va < 0x1_0000_0000
      modifies this`directory, this`tables, frames.isFree
      ensures Valid() && Fewer(old(frames.isFree[..]), frames.isFree[..])
        && StillUnused(old(T()), T(), old(frames.isFree[..]))
      ensures ok ==>
        Remapped(old(T()), T(), va / 4096, f) && f < TOTAL_FRAMES && old(frames.isFree[f]) && !frames.isFree[f]
      ensures ok ==> Unused(T(), f) && f != pdFrame
      ensures var need := if va / 0x40_0000 in old(Slots(directory)) then 1 else 2;
        && (ok <==> old(|FreeFrames(frames.isFree[..])|) >= need)
        && (ok ==> Slots(directory) == old(Slots(directory)) + {va / 0x40_0000}
                   && |FreeFrames(frames.isFree[..])| == old(|FreeFrames(frames.isFree[..])|) - need)
    {
      hide PageFrame, Remapped, WellFormed, FreeFrames, Slots;
      f := 0;
      ghost var before, slots := frames.isFree[..], Slots(directory);
      NoneFree(before);
      var phys := frames.AllocateFreeFrame();
      if phys.None? {
        return false, 0;
      }
      assert before[phys.value / 4096];
      OneTaken(before, frames.isFree[..], phys.value / 4096);
      SizeOfUnion(slots, {va / 0x40_0000});
      f := phys.value / 4096;
      ghost var mid := frames.isFree[..];
      assert Unused(T(), f);
      ok := MapPage(va, phys.value);
    }

    /** What the finished tables map: the low 64 MB and the frame buffer to themselves, the kernel, its stack and
        its heap a second time in the upper half, two pages of user code and one of user stack; nothing else. */
    static function BootFrame(q: nat, code0: nat, code1: nat, stack: nat): Option<nat> {
      if q < 0x4000 then Some(q)
      else if 0xC0100 <= q < 0xC0500 || 0xC0800 <= q < 0xC1000 then Some(q - 0xC0000)
      else if 0xFD000 <= q < 0xFE000 then Some(q)
      else if q == 0x40000 then Some(code0)
      else if q == 0x40001 then Some(code1)
      else if q == 0x40FFF then Some(stack)
      else None
    }

    static ghost predicate Booted(t: Tables, code0: nat, code1: nat, stack: nat) {
      forall q :: 0 <= q < PAGES ==> PageFrame(t, q) == BootFrame(q, code0, code1, stack)
    }

    static lemma WindowsCompose(t0: Tables, t1: Tables, t2: Tables, t3: Tables, t4: Tables, t5: Tables)
      requires t0 == Tables(EmptyTable(), map[]) && RangeMapped(t0, t1, 0, 0, 0x4000)
      requires RangeMapped(t1, t2, 0xC0100, 0x100, 0x300) && RangeMapped(t2, t3, 0xC0800, 0x800, 0x800)
      requires RangeMapped(t3, t4, 0xC0400, 0x400, 0x100) && RangeMapped(t4, t5, 0xFD000, 0xFD000, 0x1000)
      ensures Windows(t5)
    {
      AllAbsent(t0);
      hide PageFrame;
      forall q | 0 <= q < PAGES && q != 0x40000 && q != 0x40001
        && q != 0x40FFF ensures PageFrame(t5, q) == BootFrame(q, 0, 0, 0) {
      }
      forall q | q == 0x40000 || q == 0x40001 || q == 0x40FFF ensures PageFrame(t5, q) == None {
      }
    }

    static lemma AllAbsent(t: Tables)
      requires t == Tables(EmptyTable(), map[])
      ensures forall q :: 0 <= q < PAGES ==> PageFrame(t, q) == None
    {
    }

    /** All but the user pages. */
    static ghost predicate Windows(t: Tables) {
      && (forall q :: 0 <= q < PAGES && q != 0x40000 && q != 0x40001 && q != 0x40FFF ==>
        PageFrame(t, q) == BootFrame(q, 0, 0, 0))
      && PageFrame(t, 0x40000) == None && PageFrame(t, 0x40001) == None && PageFrame(t, 0x40FFF) == None
    }

    static lemma UserCompose(t: Tables, t1: Tables, t2: Tables, t3: Tables, code0: nat, code1: nat, stack: nat)
      requires Windows(t) && Remapped(t, t1, 0x40000, code0) && Remapped(t1, t2, 0x40001, code1)
        && Remapped(t2, t3, 0x40FFF, stack)
      ensures Booted(t3, code0, code1, stack)
    {
      hide PageFrame;
      forall q | 0 <= q < PAGES ensures PageFrame(t3, q) == BootFrame(q, code0, code1, stack) {
      }
    }

    /** The tables for low memory and the windows. */
    static ghost function WindowSlots(): set<nat> {
      Below(16) + Span(0xC0100, 0x300) + Span(0xC0800, 0x800) + Span(0xC0400, 0x100) + Span(0xFD000, 0x1000)
    }

    /** One table for the kernel, two for its heap, one for its stack and four for the frame buffer, all new. */
    static lemma WindowsNeed()
      ensures var s1 := Below(16) + Span(0xC0100, 0x300);
        var s2 := s1 + Span(0xC0800, 0x800);
        var s3 := s2 + Span(0xC0400, 0x100);
        && |Span(0xC0100, 0x300) - Below(16)| == 1 && Span(0xC0100, 0x300) - Below(16) == Span(0xC0100, 0x300)
        && |Span(0xC0800, 0x800) - s1| == 2 && Span(0xC0800, 0x800) - s1 == Span(0xC0800, 0x800)
        && |Span(0xC0400, 0x100) - s2| == 1 && Span(0xC0400, 0x100) - s2 == Span(0xC0400, 0x100)
        && |Span(0xFD000, 0x1000) - s3| == 4 && Span(0xFD000, 0x1000) - s3 == Span(0xFD000, 0x1000)
    {
      hide Span, Below;
      SpanSize(0xC0100, 0x300);
      SpanSize(0xC0800, 0x800);
      SpanSize(0xC0400, 0x100);
      SpanSize(0xFD000, 0x1000);
      BelowApart(0xC0100, 0x300);
      BelowApart(0xC0800, 0x800);
      BelowApart(0xC0400, 0x100);
      BelowApart(0xFD000, 0x1000);
      SpansApart(0xC0800, 0x800, 0xC0100, 0x300);
      SpansApart(0xC0400, 0x100, 0xC0100, 0x300);
      SpansApart(0xC0800, 0x800, 0xC0400, 0x100);
      SpansApart(0xFD000, 0x1000, 0xC0100, 0x300);
      SpansApart(0xFD000, 0x1000, 0xC0400, 0x100);
      SpansApart(0xFD000, 0x1000, 0xC0800, 0x800);
    }

    static lemma BelowApart(first: nat, n: nat)
      requires first / 1024 >= 16
      ensures Span(first, n) !! Below(16)
    {
      hide Span, Below;
      forall d | d in Span(first, n) ensures d !in Below(16) {
        SpanMember(first, n, d);
        BelowMember(16, d);
      }
    }

    static lemma SpansApart(first: nat, n: nat, below: nat, m: nat)
      requires m > 0 && (below + m - 1) / 1024 < first / 1024
      ensures Span(first, n) !! Span(below, m)
    {
      hide Span;
      forall d | d in Span(first, n) ensures d !in Span(below, m) {
        SpanMember(first, n, d);
        SpanMember(below, m, d);
      }
    }

    /** The tables of the user pages are new. */
    static lemma UserSlots()
      ensures 256 !in WindowSlots() && 259 !in WindowSlots()
    {
      hide Span, Below;
      forall d | d == 256 || d == 259 ensures d !in WindowSlots() {
        BelowMember(16, d);
        SpanMember(0xC0100, 0x300, d);
        SpanMember(0xC0800, 0x800, d);
        SpanMember(0xC0400, 0x100, d);
        SpanMember(0xFD000, 0x1000, d);
      }
    }

    method MapWindows() returns (ok: bool)
      requires Valid() && RangeMapped(Tables(EmptyTable(), map[]), T(), 0, 0, 0x4000)
      modifies this`directory, this`tables, frames.isFree
      ensures Valid() && (ok ==> Windows(T()))
      ensures old(Slots(directory)) == Below(16) ==>
        && (ok <==> old(|FreeFrames(frames.isFree[..])|) >= 8)
        && (ok ==> Slots(directory) == WindowSlots()
                   && |FreeFrames(frames.isFree[..])| == old(|FreeFrames(frames.isFree[..])|) - 8)
    {
      hide PageFrame, RangeMapped, WellFormed, EmptyTable, Windows, Slots, FreeFrames, Span, Below, Valid;
      ghost var t1, known := T(), Slots(directory) == Below(16);
      if known {
        WindowsNeed();
      }
      ok := MapWindow(KERNEL_VIRTUAL_BASE + 0x10_0000, 0x30_0000, 0x10_0000, 0xC0100, 0x300, known, 1);
      if !ok { return; }
      ghost var t2 := T();
      ok := MapWindow(KERNEL_VIRTUAL_BASE + 0x80_0000, 0x80_0000, 0x80_0000, 0xC0800, 0x800, known, 2);
      if !ok { return; }
      ghost var t3 := T();
      ok := MapWindow(KERNEL_VIRTUAL_BASE + 0x40_0000, 0x10_0000, 0x40_0000, 0xC0400, 0x100, known, 1);
      if !ok { return; }
      ghost var t4 := T();
      ok := MapWindow(FRAMEBUFFER_START, FRAMEBUFFER_END - FRAMEBUFFER_START, FRAMEBUFFER_START, 0xFD000, 0x1000,
        known, 4);
      if !ok { return; }
      WindowsCompose(Tables(EmptyTable(), map[]), t1, t2, t3, t4, T());
    }

    /** Maps one window of n pages, whose k tables are all new. */
    method MapWindow(vStart: nat, size: nat, pStart: nat, ghost first: nat, ghost n: nat, ghost known: bool,
        ghost k: nat)
      returns (ok: bool)
      requires Valid() && vStart + size <= 0x1_0000_0000 && pStart + size <= 0x1_0000_0000
      requires first == vStart / 4096 && n == (size + 4095) / 4096
      requires known ==> Span(first, n) - Slots(directory) == Span(first, n) && |Span(first, n)| == k
      modifies this`directory, this`tables, frames.isFree
      ensures Valid() && (ok ==> RangeMapped(old(T()), T(), first, pStart / 4096, n))
      ensures known ==> (ok <==> old(|FreeFrames(frames.isFree[..])|) >= k)
      ensures known && ok ==>
        Slots(directory) == old(Slots(directory)) + Span(first, n)
        && |FreeFrames(frames.isFree[..])| == old(|FreeFrames(frames.isFree[..])|) - k
    {
      hide PageFrame, RangeMapped, WellFormed, Slots, FreeFrames, Span, Valid;
      ok := MapMemoryRegion(vStart, size, pStart);
    }

    method MapUserPages() returns (ok: bool, code0: nat, code1: nat, stack: nat)
      requires Valid() && Windows(T())
      modifies this`directory, this`tables, frames.isFree
      ensures Valid() && (ok ==> Booted(T(), code0, code1, stack) && OwnFrames(T(), pdFrame, code0, code1, stack))
      ensures old(Slots(directory)) == WindowSlots() ==> (ok <==> old(|FreeFrames(frames.isFree[..])|) >= 5)
    {
      hide PageFrame, Remapped, WellFormed, Windows, Booted, Slots, FreeFrames, WindowSlots;
      UserSlots();
      code0, code1, stack := 0, 0, 0;
      ghost var t := T();
      ok, code0 := MapUserPage(USER_SPACE_START);
      if !ok { return; }
      ghost var t1 := T();
      ok, code1 := MapUserPage(USER_SPACE_START + 4096);
      if !ok { return; }
      ghost var t2 := T();
      ok, stack := MapUserPage(USER_STACK_TOP - 4096);
      if !ok { return; }
      UserCompose(t, t1, t2, T(), code0, code1, stack);
    }

    /** The user's frames are different, and none of them holds the directory or a table. */
    static ghost predicate OwnFrames(t: Tables, pd: nat, code0: nat, code1: nat, stack: nat) {
      && code0 != code1 && code0 != stack && code1 != stack
      && code0 != pd && code1 != pd && stack != pd
      && Unused(t, code0) && Unused(t, code1) && Unused(t, stack)
    }

    /** Sets up all mappings; false, where the kernel stops, exactly when fewer than 29 frames are free besides
        the directory's: 16 tables for low memory, 8 for the windows, and 2 tables and 3 frames for the user. */
    method InitializePaging() returns (ok: bool, code0: nat, code1: nat, stack: nat)
      requires frames.isFree.Length == TOTAL_FRAMES
      modifies this, frames.isFree
      ensures ok ==> Valid() && Booted(T(), code0, code1, stack) && OwnFrames(T(), pdFrame, code0, code1, stack)
      ensures ok <==> |old(FreeFrames(frames.isFree[..])) - {PD_FRAME}| >= 29
    {
      hide PageFrame, RangeMapped, WellFormed, EmptyTable, Windows, Booted, OwnFrames, Valid, Slots, FreeFrames, Below,
        WindowSlots;
      code0, code1, stack := 0, 0, 0;
      ok := MapLow();
      if !ok { return; }
      ok := MapWindows();
      if !ok { return; }
      ok, code0, code1, stack := MapUserPages();
    }

    /** The windows hold together: low memory and the frame buffer at their own addresses, the kernel's regions at
        0xC0000000 above theirs, two pages of code and one of stack for the user, and nothing else. */
    static lemma BootTranslations(t: Tables, code0: nat, code1: nat, stack: nat, va: nat)
      requires Booted(t, code0, code1, stack) && va < 0x1_0000_0000
      ensures Translate(t, va)
        == if va < 0x400_0000 || 0xFD00_0000 <= va < 0xFE00_0000 then Some(va)
           else if 0xC010_0000 <= va < 0xC050_0000 || 0xC080_0000 <= va < 0xC100_0000 then Some(va - 0xC000_0000)
           else if 0x4000_0000 <= va < 0x4000_1000 then Some(code0 * 4096 + va % 4096)
           else if 0x4000_1000 <= va < 0x4000_2000 then Some(code1 * 4096 + va % 4096)
           else if 0x40FF_F000 <= va < 0x4100_0000 then Some(stack * 4096 + va % 4096)
           else None
    {
      hide PageFrame;
      assert va / 4096 < PAGES;
      assert PageFrame(t, va / 4096) == BootFrame(va / 4096, code0, code1, stack);
    }
  }

  /** An address goes where the processor's walk takes it: bits 22 to 31 select the table, bits 12 to 21 its entry. */
  lemma WalkIs(t: Tables, va: nat)
    requires WellFormed(t) && va < 0x1_0000_0000
    ensures Translate(t, va) ==
      if !t.directory[va / 0x40_0000].present then None
      else
        var e := t.tables[t.directory[va / 0x40_0000].frame][va / 0x1000 % 0x400];
        if e.present then Some(e.frame * 0x1000 + va % 0x1000) else None
  {
    assert va / 4096 / 1024 == va / 0x40_0000;
  }
}
