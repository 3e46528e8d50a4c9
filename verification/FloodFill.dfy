/** Filling the connected region around a seed, with an explicit stack. */
module FloodFill {
  import opened Bytes
  import opened Canvas

  function Dx(k: nat): int {
    if k == 0 then 1 else if k == 1 then -1 else 0
  }

  function Dy(k: nat): int {
    if k == 2 then 1 else if k == 3 then -1 else 0
  }

  ghost predicate IsNeighbour(w: nat, h: nat, i: nat, k: nat, j: nat) {
    && i < w * h && j < w * h && w > 0 && k < 4
    && (j % w) as int == (i % w) as int + Dx(k) && (j / w) as int == (i / w) as int + Dy(k)
  }

  /** One step to the right, left, down or up, inside the canvas. */
  ghost predicate Adjacent(w: nat, h: nat, i: nat, j: nat) {
    exists k :: 0 <= k < 4 && IsNeighbour(w, h, i, k, j)
  }

  /** That is, at distance one in the same row or the same column. */
  lemma AdjacentIs(w: nat, h: nat, i: nat, j: nat)
    requires i < w * h && j < w * h && w > 0
    ensures Adjacent(w, h, i, j) <==>
      (i / w == j / w && (i % w == j % w + 1 || j % w == i % w + 1))
        || (i % w == j % w && (i / w == j / w + 1 || j / w == i / w + 1))
  {
    var k := if j % w == i % w + 1 then 0 else if i % w == j % w + 1 then 1 else if j / w == i / w + 1 then 2 else 3;
    if IsNeighbour(w, h, i, k, j) {
      assert Adjacent(w, h, i, j);
    }
  }

  /** A walk through cells of one colour. */
  ghost predicate Walk(cells: seq<u8>, w: nat, h: nat, path: seq<nat>) {
    && |cells| == w * h && path != []
    && (forall n :: 0 <= n < |path| ==> path[n] < |cells|)
    && (forall n :: 0 <= n < |path| ==> cells[path[n]] == cells[path[0]])
    && (forall n :: 0 <= n < |path| - 1 ==> Adjacent(w, h, path[n], path[n + 1]))
  }

  /** Cell j belongs to the region of cell s: it is 4-connected to s through cells of the same colour. */
  ghost predicate InRegion(cells: seq<u8>, w: nat, h: nat, s: nat, j: nat) {
    exists path: seq<nat> :: Walk(cells, w, h, path) && path[0] == s && path[|path| - 1] == j
  }

  /** How many cells have this colour. */
  function Count(cells: seq<u8>, colour: u8): (n: nat)
    ensures n <= |cells|
  {
    if cells == [] then 0 else Count(cells[..|cells| - 1], colour) + (if cells[|cells| - 1] == colour then 1 else 0)
  }

  lemma {:induction false} CountUpdate(cells: seq<u8>, i: nat, c: u8, old_: u8)
    requires i < |cells| && cells[i] == old_ && c != old_
    ensures Count(cells[i := c], old_) == Count(cells, old_) - 1
  {
    var n := |cells| - 1;
    if i == n {
      assert cells[i := c][..n] == cells[..n];
    } else {
      assert cells[i := c][..n] == cells[..n][i := c];
      CountUpdate(cells[..n], i, c, old_);
    }
  }

  // ----- what the loop keeps -----

  /** Cells are recoloured only inside the region, and only from the old colour. */
  ghost predicate OnlyRegion(cells0: seq<u8>, cells: seq<u8>, w: nat, h: nat, s: nat, c: u8) {
    && |cells| == |cells0| == w * h && s < |cells0| && cells0[s] != c && cells[s] == c
    && forall j :: 0 <= j < |cells| ==>
         (cells[j] == cells0[j] || (cells0[j] == cells0[s] && cells[j] == c && InRegion(cells0, w, h, s, j)))
  }

  ghost predicate Filled(cells0: seq<u8>, cells: seq<u8>, s: nat, c: u8, j: nat) {
    j < |cells| == |cells0| && s < |cells0| && cells0[j] == cells0[s] && cells[j] == c
  }

  /** All neighbours of the old colour are recoloured. */
  ghost predicate Done(cells0: seq<u8>, cells: seq<u8>, w: nat, h: nat, s: nat, c: u8, j: nat, upTo: nat) {
    forall k, n: nat ::
      0 <= k < upTo && n < |cells0| && IsNeighbour(w, h, j, k, n) && s < |cells0| && cells0[n] == cells0[s] ==>
      Filled(cells0, cells, s, c, n)
  }

  /** A recoloured cell waits on the stack or is done. */
  ghost predicate Frontier(cells0: seq<u8>, cells: seq<u8>, w: nat, h: nat, s: nat, c: u8, stack: seq<nat>) {
    && (forall n :: 0 <= n < |stack| ==> Filled(cells0, cells, s, c, stack[n]))
    && (forall j :: Filled(cells0, cells, s, c, j) ==> j in stack || Done(cells0, cells, w, h, s, c, j, 4))
  }

  lemma SeedInRegion(cells: seq<u8>, w: nat, h: nat, s: nat)
    requires |cells| == w * h && s < |cells|
    ensures InRegion(cells, w, h, s, s)
  {
    assert Walk(cells, w, h, [s]);
  }

  lemma RegionGrows(cells: seq<u8>, w: nat, h: nat, s: nat, j: nat, k: nat, n: nat)
    requires InRegion(cells, w, h, s, j) && IsNeighbour(w, h, j, k, n) && n < |cells| && s < |cells|
      && cells[n] == cells[s]
    ensures InRegion(cells, w, h, s, n)
  {
    var path: seq<nat> :| Walk(cells, w, h, path) && path[0] == s && path[|path| - 1] == j;
    var longer := path + [n];
    assert Adjacent(w, h, j, n);
    forall m | 0 <= m < |longer| - 1 ensures Adjacent(w, h, longer[m], longer[m + 1]) {
      if m < |path| - 1 {
        assert Adjacent(w, h, path[m], path[m + 1]);
      }
    }
    assert Walk(cells, w, h, longer);
  }

  /** With nothing waiting, every walk from the seed stays among the recoloured cells. */
  lemma {:induction false} AllReached(cells0: seq<u8>, cells: seq<u8>, w: nat, h: nat, s: nat, c: u8, path: seq<nat>)
    requires Frontier(cells0, cells, w, h, s, c, []) && Filled(cells0, cells, s, c, s)
    requires Walk(cells0, w, h, path) && path[0] == s
    ensures Filled(cells0, cells, s, c, path[|path| - 1])
    decreases |path|
  {
    if |path| > 1 {
      var front := path[..|path| - 1];
      assert forall m :: 0 <= m < |front| - 1 ==> Adjacent(w, h, path[m], path[m + 1]);
      assert Walk(cells0, w, h, front);
      AllReached(cells0, cells, w, h, s, c, front);
      var j, n := path[|path| - 2], path[|path| - 1];
      assert Adjacent(w, h, path[|path| - 2], path[|path| - 2 + 1]);
      var k :| 0 <= k < 4 && IsNeighbour(w, h, j, k, n);
      assert Done(cells0, cells, w, h, s, c, j, 4);
    }
  }

  /** The result: exactly the region has the new colour. */
  ghost predicate RegionFilled(cells0: seq<u8>, cells: seq<u8>, w: nat, h: nat, s: nat, c: u8) {
    |cells| == |cells0| && forall j :: 0 <= j < |cells| ==>
      cells[j] == if InRegion(cells0, w, h, s, j) then c else cells0[j]
  }

  lemma FillComplete(cells0: seq<u8>, cells: seq<u8>, w: nat, h: nat, s: nat, c: u8)
    requires OnlyRegion(cells0, cells, w, h, s, c) && Frontier(cells0, cells, w, h, s, c, [])
    ensures RegionFilled(cells0, cells, w, h, s, c)
  {
    forall j | 0 <= j < |cells| ensures cells[j] == if InRegion(cells0, w, h, s, j) then c else cells0[j] {
      if InRegion(cells0, w, h, s, j) {
        var path: seq<nat> :| Walk(cells0, w, h, path) && path[0] == s && path[|path| - 1] == j;
        AllReached(cells0, cells, w, h, s, c, path);
      }
    }
  }

  /** Recolouring a neighbour of a cell of the region and putting it on the stack. */
  lemma Push(cells0: seq<u8>, cells: seq<u8>, w: nat, h: nat, s: nat, c: u8, stack: seq<nat>, idx: nat, k: nat, n: nat)
    requires OnlyRegion(cells0, cells, w, h, s, c) && Waiting(cells0, cells, w, h, s, c, stack, idx, k) && k < 4
    requires IsNeighbour(w, h, idx, k, n) && n < |cells| && cells[n] == cells0[s]
    ensures OnlyRegion(cells0, cells[n := c], w, h, s, c)
      && Waiting(cells0, cells[n := c], w, h, s, c, stack + [n], idx, k + 1)
  {
    hide InRegion, IsNeighbour, Waiting, OnlyRegion;
    PushRegion(cells0, cells, w, h, s, c, stack, idx, k, n);
    FilledGrows(cells0, cells, w, h, s, c, n);
    PushWaiting(cells0, cells, cells[n := c], w, h, s, c, stack, idx, k, n);
  }

  lemma PushRegion(cells0: seq<u8>, cells: seq<u8>, w: nat, h: nat, s: nat, c: u8, stack: seq<nat>, idx: nat, k: nat,
      n: nat)
    requires OnlyRegion(cells0, cells, w, h, s, c) && Waiting(cells0, cells, w, h, s, c, stack, idx, k) && k < 4
    requires IsNeighbour(w, h, idx, k, n) && n < |cells| && cells[n] == cells0[s]
    ensures OnlyRegion(cells0, cells[n := c], w, h, s, c)
  {
    hide InRegion, IsNeighbour, Done;
    RegionGrows(cells0, w, h, s, idx, k, n);
  }

  lemma PushWaiting(cells0: seq<u8>, cells: seq<u8>, r: seq<u8>, w: nat, h: nat, s: nat, c: u8, stack: seq<nat>,
      idx: nat, k: nat, n: nat)
    requires Waiting(cells0, cells, w, h, s, c, stack, idx, k) && k < 4 && IsNeighbour(w, h, idx, k, n)
    requires forall j :: Filled(cells0, cells, s, c, j) ==> Filled(cells0, r, s, c, j)
    requires forall j :: Filled(cells0, r, s, c, j) ==> Filled(cells0, cells, s, c, j) || j == n
    requires Filled(cells0, r, s, c, n)
    ensures Waiting(cells0, r, w, h, s, c, stack + [n], idx, k + 1)
  {
    hide InRegion, IsNeighbour, Filled;
    forall j, m | Done(cells0, cells, w, h, s, c, j, m) ensures Done(cells0, r, w, h, s, c, j, m) {
    }
    hide Done;
    NextDone(cells0, r, w, h, s, c, idx, k, n);
  }

  lemma FilledGrows(cells0: seq<u8>, cells: seq<u8>, w: nat, h: nat, s: nat, c: u8, n: nat)
    requires OnlyRegion(cells0, cells, w, h, s, c) && n < |cells| && cells[n] == cells0[s]
    ensures forall j :: Filled(cells0, cells, s, c, j) ==> Filled(cells0, cells[n := c], s, c, j)
    ensures forall j :: Filled(cells0, cells[n := c], s, c, j) ==> Filled(cells0, cells, s, c, j) || j == n
    ensures Filled(cells0, cells[n := c], s, c, n)
  {
    hide InRegion;
  }

  lemma NextDone(cells0: seq<u8>, cells: seq<u8>, w: nat, h: nat, s: nat, c: u8, j: nat, k: nat, n: nat)
    requires Done(cells0, cells, w, h, s, c, j, k) && IsNeighbour(w, h, j, k, n) && Filled(cells0, cells, s, c, n)
    ensures Done(cells0, cells, w, h, s, c, j, k + 1)
  {
    hide Filled;
    forall m: nat | m < |cells0| && IsNeighbour(w, h, j, k, m) ensures m == n {
      SameNeighbour(w, h, j, k, m, n);
    }
  }

  lemma SameNeighbour(w: nat, h: nat, j: nat, k: nat, m: nat, n: nat)
    requires IsNeighbour(w, h, j, k, m) && IsNeighbour(w, h, j, k, n)
    ensures m == n
  {
    assert m == w * (m / w) + m % w && n == w * (n / w) + n % w;
  }

  /** While the neighbours of idx are looked at: the first k of them are done. */
  ghost predicate Waiting(cells0: seq<u8>, cells: seq<u8>, w: nat, h: nat, s: nat, c: u8, stack: seq<nat>, idx: nat,
      k: nat) {
    && k <= 4 && Filled(cells0, cells, s, c, idx) && InRegion(cells0, w, h, s, idx)
    && (forall n :: 0 <= n < |stack| ==> Filled(cells0, cells, s, c, stack[n]))
    && (forall j :: Filled(cells0, cells, s, c, j) && j != idx ==> j in stack || Done(cells0, cells, w, h, s, c, j, 4))
    && Done(cells0, cells, w, h, s, c, idx, k)
  }

  lemma Pop(cells0: seq<u8>, cells: seq<u8>, w: nat, h: nat, s: nat, c: u8, stack: seq<nat>)
    requires OnlyRegion(cells0, cells, w, h, s, c) && Frontier(cells0, cells, w, h, s, c, stack) && stack != []
    ensures Waiting(cells0, cells, w, h, s, c, stack[..|stack| - 1], stack[|stack| - 1], 0)
  {
    hide InRegion, IsNeighbour;
    var idx := stack[|stack| - 1];
    forall j | Filled(cells0, cells, s, c, j) && j != idx ensures j in stack[..|stack| - 1]
      || Done(cells0, cells, w, h, s, c, j, 4) {
      if j in stack {
        assert j in stack[..|stack| - 1];
      }
    }
  }

  lemma Settle(cells0: seq<u8>, cells: seq<u8>, w: nat, h: nat, s: nat, c: u8, stack: seq<nat>, idx: nat)
    requires Waiting(cells0, cells, w, h, s, c, stack, idx, 4)
    ensures Frontier(cells0, cells, w, h, s, c, stack)
  {
    hide InRegion, IsNeighbour, Done;
  }

  /** The k-th neighbour is off the canvas or needs nothing. */
  lemma Skip(cells0: seq<u8>, cells: seq<u8>, w: nat, h: nat, s: nat, c: u8, stack: seq<nat>, idx: nat, k: nat)
    requires OnlyRegion(cells0, cells, w, h, s, c) && Waiting(cells0, cells, w, h, s, c, stack, idx, k) && k < 4
    requires forall n: nat :: n < |cells| && IsNeighbour(w, h, idx, k, n) ==> cells[n] != cells0[s]
    ensures Waiting(cells0, cells, w, h, s, c, stack, idx, k + 1)
  {
    hide InRegion;
    forall m, n: nat | 0 <= m < k + 1 && n < |cells0| && IsNeighbour(w, h, idx, m, n) && cells0[n] == cells0[s]
      ensures Filled(cells0, cells, s, c, n)
    {
    }
  }

  lemma NeighbourAt(w: nat, h: nat, idx: nat, k: nat, nx: int, ny: int)
    requires idx < w * h && k < 4 && w > 0 && nx == (idx % w) as int + Dx(k) && ny == (idx / w) as int + Dy(k)
    ensures if nx < 0 || ny < 0 || nx >= w || ny >= h then forall n: nat :: !IsNeighbour(w, h, idx, k, n)
            else Index(w, nx, ny) < w * h && forall n: nat :: IsNeighbour(w, h, idx, k, n) <==> n == Index(w, nx, ny)
  {
    hide Index;
    if 0 <= nx < w && 0 <= ny < h {
      IndexInside(w, h, nx, ny);
      IndexIs(w, nx, ny);
    }
    forall n: nat ensures IsNeighbour(w, h, idx, k, n) <==> 0 <= nx < w && 0 <= ny < h && n == Index(w, nx, ny) {
      OneNeighbour(w, h, idx, k, nx, ny, n);
    }
  }

  lemma OneNeighbour(w: nat, h: nat, idx: nat, k: nat, nx: int, ny: int, n: nat)
    requires idx < w * h && k < 4 && w > 0 && nx == (idx % w) as int + Dx(k) && ny == (idx / w) as int + Dy(k)
    ensures IsNeighbour(w, h, idx, k, n) <==> 0 <= nx < w && 0 <= ny < h && n == Index(w, nx, ny)
  {
    hide Index;
    if 0 <= nx < w && 0 <= ny < h {
      IndexInside(w, h, nx, ny);
      IndexIs(w, nx, ny);
    }
    if IsNeighbour(w, h, idx, k, n) {
      Coordinates(w, h, n);
    }
  }

  /** Looks at the k-th neighbour of a cell taken from the stack. */
  method Visit(canvas: array<u8>, w: nat, h: nat, stack: array<nat>, top: nat, idx: nat, k: nat, old_: u8, c: u8,
               ghost cells0: seq<u8>, ghost s: nat) returns (top': nat)
    requires canvas.Length == w * h == stack.Length && w > 0 && k < 4 && idx < w * h && top <= stack.Length
      && s < |cells0|
    requires old_ == cells0[s] && OnlyRegion(cells0, canvas[..], w, h, s, c)
      && Waiting(cells0, canvas[..], w, h, s, c, stack[..top], idx, k)
    requires top + Count(canvas[..], old_) <= w * h
    modifies canvas, stack
    ensures top' <= stack.Length && OnlyRegion(cells0, canvas[..], w, h, s, c)
    ensures Waiting(cells0, canvas[..], w, h, s, c, stack[..top'], idx, k + 1)
    ensures top' + Count(canvas[..], old_) == top + Count(old(canvas[..]), old_) && top' >= top
  {
    hide Waiting, IsNeighbour, Index, Count;
    ghost var cells, waiting := canvas[..], stack[..top];
    top' := top;
    var nx, ny := (idx % w) as int + Dx(k), (idx / w) as int + Dy(k);
    NeighbourAt(w, h, idx, k, nx, ny);
    hide OnlyRegion;
    if nx < 0 || ny < 0 || nx >= w || ny >= h {
      Skip(cells0, cells, w, h, s, c, waiting, idx, k);
      return;
    }
    var n := Index(w, nx, ny);
    if canvas[n] == old_ {
      CountUpdate(cells, n, c, old_);
      canvas[n] := c;
      stack[top] := n;
      top' := top + 1;
      assert canvas[..] == cells[n := c] && stack[..top'] == waiting + [n];
      Push(cells0, cells, w, h, s, c, waiting, idx, k, n);
    } else {
      Skip(cells0, cells, w, h, s, c, waiting, idx, k);
    }
  }

  /** Recolours the region of (x, y). The stack holds each cell at most once, because a cell is recoloured
      before it is pushed; with one place for each cell it never overflows, and the loop ends. */
  method Fill(canvas: array<u8>, w: nat, h: nat, fillStack: array<nat>, x: int, y: int, c: u8)
    requires canvas.Length == w * h == fillStack.Length && w * h <= 65536
    modifies canvas, fillStack
    ensures x < 0 || y < 0 || x >= w || y >= h ==> canvas[..] == old(canvas[..])
    ensures 0 <= x < w && 0 <= y < h ==>
              Index(w, x, y) < w * h && RegionFilled(old(canvas[..]), canvas[..], w, h, Index(w, x, y), c)
  {
    hide Waiting, IsNeighbour, Index, Count, OnlyRegion, Frontier, InRegion, RegionFilled;
    if x < 0 || y < 0 || x >= w || y >= h {
      return;
    }
    IndexInside(w, h, x, y);
    var s := Index(w, x, y);
    ghost var cells0 := canvas[..];
    var old_ := canvas[s];
    if old_ == c {
      AlreadyFilled(cells0, w, h, s, c);
      return;
    }
    canvas[s] := c;
    fillStack[0] := s;
    var top := 1;
    assert canvas[..] == cells0[s := c] && fillStack[..1] == [s];
    Begin(cells0, w, h, s, c);
    while top > 0
      invariant top <= fillStack.Length && OnlyRegion(cells0, canvas[..], w, h, s, c)
      invariant Frontier(cells0, canvas[..], w, h, s, c, fillStack[..top])
      invariant top + Count(canvas[..], old_) <= w * h
      decreases Count(canvas[..], old_), top
    {
      top := StepFill(canvas, w, h, fillStack, top, old_, c, cells0, s);
    }
    assert fillStack[..0] == [];
    FillComplete(cells0, canvas[..], w, h, s, c);
  }

  /** Takes one cell off the stack and looks at its four neighbours. */
  method StepFill(canvas: array<u8>, w: nat, h: nat, fillStack: array<nat>, top: nat, old_: u8, c: u8,
      ghost cells0: seq<u8>, ghost s: nat) returns (top': nat)
    requires canvas.Length == w * h == fillStack.Length && 0 < top <= fillStack.Length && s < |cells0|
      && old_ == cells0[s]
    requires OnlyRegion(cells0, canvas[..], w, h, s, c) && Frontier(cells0, canvas[..], w, h, s, c, fillStack[..top])
    requires top + Count(canvas[..], old_) <= w * h
    modifies canvas, fillStack
    ensures top' <= fillStack.Length && OnlyRegion(cells0, canvas[..], w, h, s, c)
    ensures Frontier(cells0, canvas[..], w, h, s, c, fillStack[..top'])
    ensures top' + Count(canvas[..], old_) == top - 1 + Count(old(canvas[..]), old_) && top' >= top - 1
  {
    hide Waiting, IsNeighbour, Index, Count, OnlyRegion, Frontier, InRegion, Filled;
    Pop(cells0, canvas[..], w, h, s, c, fillStack[..top]);
    top' := top - 1;
    var idx := fillStack[top'];
    assert fillStack[..top][..top'] == fillStack[..top'] && fillStack[..top][top'] == idx;
    WaitingInside(cells0, canvas[..], w, h, s, c, fillStack[..top'], idx, 0);
    for k := 0 to 4
      invariant top - 1 <= top' <= fillStack.Length && OnlyRegion(cells0, canvas[..], w, h, s, c)
      invariant Waiting(cells0, canvas[..], w, h, s, c, fillStack[..top'], idx, k)
      invariant top' + Count(canvas[..], old_) == top - 1 + Count(old(canvas[..]), old_)
    {
      top' := Visit(canvas, w, h, fillStack, top', idx, k, old_, c, cells0, s);
    }
    Settle(cells0, canvas[..], w, h, s, c, fillStack[..top'], idx);
  }

  /** A seed that has the new colour already has its whole region in it. */
  lemma AlreadyFilled(cells: seq<u8>, w: nat, h: nat, s: nat, c: u8)
    requires |cells| == w * h && s < |cells| && cells[s] == c
    ensures RegionFilled(cells, cells, w, h, s, c)
  {
    forall j | 0 <= j < |cells| && InRegion(cells, w, h, s, j) ensures cells[j] == c {
      var path: seq<nat> :| Walk(cells, w, h, path) && path[0] == s && path[|path| - 1] == j;
    }
  }

  lemma Begin(cells0: seq<u8>, w: nat, h: nat, s: nat, c: u8)
    requires |cells0| == w * h && s < |cells0| && cells0[s] != c
    ensures OnlyRegion(cells0, cells0[s := c], w, h, s, c) && Frontier(cells0, cells0[s := c], w, h, s, c, [s])
    ensures 1 + Count(cells0[s := c], cells0[s]) <= w * h
  {
    hide InRegion, IsNeighbour, Count;
    SeedInRegion(cells0, w, h, s);
    CountUpdate(cells0, s, c, cells0[s]);
  }

  lemma WaitingInside(cells0: seq<u8>, cells: seq<u8>, w: nat, h: nat, s: nat, c: u8, stack: seq<nat>, idx: nat, k: nat)
    requires Waiting(cells0, cells, w, h, s, c, stack, idx, k)
    ensures idx < |cells|
  {
  }
}
