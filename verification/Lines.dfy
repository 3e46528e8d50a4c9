/** The integer line walk: where it goes, that it ends, and what it paints. */
module Lines {
  import opened Bytes
  import opened TwosComplement
  import opened Canvas

  function Abs(x: int): nat {
    if x < 0 then -x else x
  }

  function Sign(a: int, b: int): int {
    if a < b then 1 else -1
  }

  function Max(a: nat, b: nat): nat {
    if a > b then a else b
  }

  /** How many minor steps have been taken after n of a major ones, b being the minor distance. */
  function Minor(a: nat, b: nat, n: nat): (m: nat)
  {
    if a == 0 then 0 else (2 * b * n + a - 1) / (2 * a)
  }

  /** The n-th point of the line from (x0, y0) to (x1, y1). */
  function Point(x0: int, y0: int, x1: int, y1: int, n: nat): (int, int) {
    var dx, dy := Abs(x1 - x0), Abs(y1 - y0);
    if dx >= dy then (x0 + Sign(x0, x1) * n, y0 + Sign(y0, y1) * Minor(dx, dy, n))
    else (x0 + Sign(x0, x1) * Minor(dy, dx, n), y0 + Sign(y0, y1) * n)
  }

  function LastPoint(x0: int, y0: int, x1: int, y1: int): nat {
    Max(Abs(x1 - x0), Abs(y1 - y0))
  }

  // ----- rounding -----

  /** m minor steps are the nearest to the true position b * n / a; halves are rounded down. */
  ghost predicate Nearest(a: nat, b: nat, n: nat, m: int) {
    (2 * m - 1) * a < 2 * b * n <= (2 * m + 1) * a
  }

  lemma MinorIsNearest(a: nat, b: nat, n: nat)
    requires a > 0
    ensures Nearest(a, b, n, Minor(a, b, n))
  {
    var v := 2 * b * n + a - 1;
    var m := Minor(a, b, n);
    assert v == (2 * a) * (v / (2 * a)) + v % (2 * a);
    assert (2 * a) * m == 2 * m * a;
    assert (2 * m - 1) * a == 2 * m * a - a && (2 * m + 1) * a == 2 * m * a + a;
  }

  lemma NearestIsMinor(a: nat, b: nat, n: nat, m: nat)
    requires a > 0 && Nearest(a, b, n, m)
    ensures m == Minor(a, b, n)
  {
    var v := 2 * b * n + a - 1;
    assert (2 * m - 1) * a == (2 * a) * m - a && (2 * m + 1) * a == (2 * a) * m + a;
    DivModUnique(v, 2 * a, m, v - (2 * a) * m);
  }

  lemma Ends(a: nat, b: nat)
    requires b <= a
    ensures Minor(a, b, 0) == 0 && Minor(a, b, a) == b
  {
    if a > 0 {
      assert (2 * 0 - 1) * a == 0 - a;
      NearestIsMinor(a, b, 0, 0);
      assert 2 * b * a == (2 * b) * a && (2 * b - 1) * a == 2 * b * a - a && (2 * b + 1) * a == 2 * b * a + a;
      NearestIsMinor(a, b, a, b);
    }
  }

  /** One major step on, the minor position goes on by one or not at all, and never past its end. */
  lemma MinorStep(a: nat, b: nat, n: nat)
    requires a > 0 && b <= a
    ensures Minor(a, b, n + 1) == Minor(a, b, n) + (if (2 * Minor(a, b, n) + 1) * a < 2 * b * (n + 1) then 1 else 0)
  {
    var m := Minor(a, b, n);
    MinorIsNearest(a, b, n);
    assert 2 * b * (n + 1) == 2 * b * n + 2 * b;
    assert (2 * (m + 1) - 1) * a == (2 * m + 1) * a && (2 * (m + 1) + 1) * a == (2 * m + 1) * a + 2 * a;
    if (2 * m + 1) * a < 2 * b * (n + 1) {
      NearestIsMinor(a, b, n + 1, m + 1);
    } else {
      NearestIsMinor(a, b, n + 1, m);
    }
  }

  lemma MinorGrows(a: nat, b: nat, n: nat, k: nat)
    requires a > 0 && b <= a && n <= k
    ensures Minor(a, b, n) <= Minor(a, b, k)
    decreases k
  {
    if n < k {
      MinorGrows(a, b, n, k - 1);
      MinorStep(a, b, k - 1);
    }
  }

  // ----- what the points are -----

  /** The line starts at one end, ends at the other, and stays in their bounding box. */
  lemma PointsInBox(x0: int, y0: int, x1: int, y1: int, n: nat)
    requires n <= LastPoint(x0, y0, x1, y1)
    ensures Point(x0, y0, x1, y1, 0) == (x0, y0)
    ensures Point(x0, y0, x1, y1, LastPoint(x0, y0, x1, y1)) == (x1, y1)
    ensures var (x, y) := Point(x0, y0, x1, y1, n);
      (if x0 < x1 then x0 <= x <= x1 else x1 <= x <= x0) && (if y0 < y1 then y0 <= y <= y1 else y1 <= y <= y0)
  {
    var dx, dy := Abs(x1 - x0), Abs(y1 - y0);
    var a, b := Max(dx, dy), if dx >= dy then dy else dx;
    Ends(a, b);
    if a > 0 {
      MinorGrows(a, b, n, a);
    }
    hide Minor;
    assert Sign(x0, x1) * dx == x1 - x0 && Sign(y0, y1) * dy == y1 - y0;
  }

  /** Each point is one step on along the longer direction and at most one along the other. */
  lemma PointsStep(x0: int, y0: int, x1: int, y1: int, n: nat)
    requires n < LastPoint(x0, y0, x1, y1)
    ensures var (dx, dy) := (Abs(x1 - x0), Abs(y1 - y0));
      var (x, y) := Point(x0, y0, x1, y1, n);
      var (u, v) := Point(x0, y0, x1, y1, n + 1);
      && (if dx >= dy then u == x + Sign(x0, x1) && (v == y || v == y + Sign(y0, y1))
          else v == y + Sign(y0, y1) && (u == x || u == x + Sign(x0, x1)))
  {
    var dx, dy := Abs(x1 - x0), Abs(y1 - y0);
    MinorStep(Max(dx, dy), if dx >= dy then dy else dx, n);
    hide Minor;
  }

  /** Across the longer direction every point is within half a cell of the true line. */
  lemma HalfPixel(x0: int, y0: int, x1: int, y1: int, n: nat)
    requires n <= LastPoint(x0, y0, x1, y1)
    ensures var (dx, dy) := (Abs(x1 - x0), Abs(y1 - y0));
      var (x, y) := Point(x0, y0, x1, y1, n);
      if dx >= dy then Abs(2 * dx * Abs(y - y0) - 2 * dy * n) <= dx else Abs(2 * dy * Abs(x - x0) - 2 * dx * n) <= dy
  {
    hide Minor;
    var dx, dy := Abs(x1 - x0), Abs(y1 - y0);
    if dx >= dy {
      WithinHalf(dx, dy, n, y0, Sign(y0, y1));
    } else {
      WithinHalf(dy, dx, n, x0, Sign(x0, x1));
    }
  }

  lemma WithinHalf(a: nat, b: nat, n: nat, from: int, s: int)
    requires (s == 1 || s == -1) && b <= a && n <= a
    ensures var to := from + s * Minor(a, b, n); Abs(2 * a * Abs(to - from) - 2 * b * n) <= a
  {
    var m: int := Minor(a, b, n);
    assert Abs(from + s * m - from) == m;
    if a > 0 {
      MinorIsNearest(a, b, n);
      assert (2 * m - 1) * a == 2 * a * m - a && (2 * m + 1) * a == 2 * a * m + a;
    }
    hide Minor;
  }

  // ----- the walk -----

  /** The error term after i steps in x and m in y. */
  function Err(dx: nat, dy: nat, i: nat, m: nat): int {
    dx - dy - i * dy + m * dx
  }

  /** Which directions the error term sends the walk in, for a line that is wider than high. */
  lemma WideStep(dx: nat, dy: nat, n: nat)
    requires dy <= dx && 0 < dx && n < dx
    ensures var m := Minor(dx, dy, n);
      2 * Err(dx, dy, n, m) > 0 - dy && 0 - 3 * dx <= 2 * Err(dx, dy, n, m) <= 3 * dx
        && (2 * Err(dx, dy, n, m) < dx <==> Minor(dx, dy, n + 1) == m + 1)
    ensures Minor(dx, dy, n + 1) == Minor(dx, dy, n) || Minor(dx, dy, n + 1) == Minor(dx, dy, n) + 1
  {
    var m := Minor(dx, dy, n);
    MinorIsNearest(dx, dy, n);
    MinorStep(dx, dy, n);
    hide Minor;
    Expand(dx, dy, n, m);
    if dx == dy {
      OddMultiple(dx, 2 * n - (2 * m + 1));
      assert 2 * dy * n - (2 * m + 1) * dx == dx * (2 * n - (2 * m + 1));
    }
  }

  lemma Expand(dx: nat, dy: nat, n: nat, m: nat)
    ensures 2 * Err(dx, dy, n, m) == 2 * dx - 2 * dy - 2 * dy * n + 2 * m * dx
    ensures (2 * m + 1) * dx == 2 * m * dx + dx && 2 * dy * (n + 1) == 2 * dy * n + 2 * dy
  {
    assert 2 * (n * dy) == 2 * dy * n && 2 * (m * dx) == 2 * m * dx;
  }

  lemma OddMultiple(d: nat, k: int)
    requires d > 0 && k % 2 == 1
    ensures d * k != 0
  {
    if k > 0 {
      assert d * k >= d;
    } else {
      assert d * (-k) >= d && d * k == -(d * (-k));
    }
  }

  /** The same for a line that is higher than wide. */
  lemma HighStep(dx: nat, dy: nat, n: nat)
    requires dx < dy && n < dy
    ensures var i := Minor(dy, dx, n);
      2 * Err(dx, dy, i, n) < dx && 0 - 3 * dy <= 2 * Err(dx, dy, i, n) <= 3 * dy
        && (2 * Err(dx, dy, i, n) > 0 - dy <==> Minor(dy, dx, n + 1) == i + 1)
    ensures Minor(dy, dx, n + 1) == Minor(dy, dx, n) || Minor(dy, dx, n + 1) == Minor(dy, dx, n) + 1
  {
    var i := Minor(dy, dx, n);
    MinorIsNearest(dy, dx, n);
    MinorStep(dy, dx, n);
    hide Minor;
    ExpandHigh(dx, dy, i, n);
  }

  lemma ExpandHigh(dx: nat, dy: nat, i: nat, n: nat)
    ensures 2 * Err(dx, dy, i, n) == 2 * dx - 2 * dy - 2 * i * dy + 2 * dx * n
    ensures (2 * i + 1) * dy == 2 * i * dy + dy && 2 * dx * (n + 1) == 2 * dx * n + 2 * dx
  {
    assert 2 * (i * dy) == 2 * i * dy && 2 * (n * dx) == 2 * dx * n;
  }

  /** Steps in x and in y after n points. */
  function XSteps(dx: nat, dy: nat, n: nat): nat {
    if dx >= dy then n else Minor(dy, dx, n)
  }

  function YSteps(dx: nat, dy: nat, n: nat): nat {
    if dx >= dy then Minor(dx, dy, n) else n
  }

  /** One turn of the walk, and that the doubled error term stays within three times the longer distance. */
  lemma WalkStep(dx: nat, dy: nat, n: nat)
    requires n < Max(dx, dy)
    ensures var (i, m) := (XSteps(dx, dy, n), YSteps(dx, dy, n));
      var e2 := 2 * Err(dx, dy, i, m);
      && XSteps(dx, dy, n + 1) == i + (if e2 > 0 - dy then 1 else 0)
      && YSteps(dx, dy, n + 1) == m + (if e2 < dx then 1 else 0)
      && 0 - 3 * Max(dx, dy) <= e2 <= 3 * Max(dx, dy)
  {
    hide Minor, Err;
    if dx >= dy {
      WideStep(dx, dy, n);
    } else {
      HighStep(dx, dy, n);
    }
  }

  lemma ErrStep(dx: nat, dy: nat, i: nat, m: nat, p: nat, q: nat)
    requires p <= 1 && q <= 1
    ensures Err(dx, dy, i + p, m + q) == Err(dx, dy, i, m) - (if p == 1 then dy else 0) + (if q == 1 then dx else 0)
  {
    assert (i + 1) * dy == i * dy + dy && (m + 1) * dx == m * dx + dx;
  }

  /** The target is reached at the last point and not before. */
  lemma ReachedAtLast(dx: nat, dy: nat, n: nat)
    requires n <= Max(dx, dy)
    ensures XSteps(dx, dy, n) == dx && YSteps(dx, dy, n) == dy <==> n == Max(dx, dy)
  {
    if dx >= dy {
      Ends(dx, dy);
    } else {
      Ends(dy, dx);
    }
  }

  // ----- painting -----

  /** Cell (px, py) lies under a square brush of b cells at (x, y). */
  predicate UnderBrush(b: nat, x: int, y: int, px: int, py: int) {
    x - b / 2 <= px < x - b / 2 + b && y - b / 2 <= py < y - b / 2 + b
  }

  lemma BrushIs(b: nat, x: int, y: int)
    ensures forall px, py ::
      UnderBrush(b, x, y, px, py) <==> x - b / 2 <= px < x - b / 2 + b && y - b / 2 <= py < y - b / 2 + b
  {
  }

  /** Exactly the cells under the brush at one of the first n points have the colour. */
  ghost predicate Painted(before: seq<u8>, after: seq<u8>, w: nat, h: nat, b: nat, c: u8, points: seq<(int, int)>) {
    && |before| == |after| == w * h
    && forall px, py :: 0 <= px < w && 0 <= py < h ==>
         Cell(after, w, px, py) == if Touched(b, points, px, py) then c else Cell(before, w, px, py)
  }

  function Cell(cells: seq<u8>, w: nat, px: nat, py: nat): u8 {
    if Index(w, px, py) < |cells| then cells[Index(w, px, py)] else 0
  }

  ghost predicate Touched(b: nat, points: seq<(int, int)>, px: int, py: int) {
    exists k :: 0 <= k < |points| && UnderBrush(b, points[k].0, points[k].1, px, py)
  }

  /** The whole line as a sequence of points. */
  function Points(x0: int, y0: int, x1: int, y1: int, n: nat): (s: seq<(int, int)>)
    ensures |s| == n && forall k :: 0 <= k < n ==> s[k] == Point(x0, y0, x1, y1, k)
  {
    if n == 0 then [] else Points(x0, y0, x1, y1, n - 1) + [Point(x0, y0, x1, y1, n - 1)]
  }

  /** Writes one cell; outside the canvas nothing happens. */
  method PutPixel(canvas: array<u8>, w: nat, h: nat, x: int, y: int, c: u8)
    requires canvas.Length == w * h
    modifies canvas
    ensures forall px, py :: 0 <= px < w && 0 <= py < h ==>
              Cell(canvas[..], w, px, py) == if px == x && py == y then c else Cell(old(canvas[..]), w, px, py)
  {
    if x < 0 || y < 0 || x >= w || y >= h {
      return;
    }
    IndexInside(w, h, x, y);
    canvas[Index(w, x, y)] := c;
    forall px, py | 0 <= px < w && 0 <= py < h
      ensures Cell(canvas[..], w, px, py) == if px == x && py == y then c else Cell(old(canvas[..]), w, px, py)
    {
      IndexInside(w, h, px, py);
      IndexIs(w, px, py);
      IndexIs(w, x, y);
    }
  }

  /** Paints the square brush at (x, y), clipped to the canvas. */
  method Stamp(canvas: array<u8>, w: nat, h: nat, b: nat, x: int, y: int, c: u8)
    requires canvas.Length == w * h
    modifies canvas
    ensures forall px, py :: 0 <= px < w && 0 <= py < h ==>
              Cell(canvas[..], w, px, py)
              == if x - b / 2 <= px < x - b / 2 + b && y - b / 2 <= py < y - b / 2 + b then c
                 else Cell(old(canvas[..]), w, px, py)
  {
    hide Cell;
    var off := b / 2;
    ghost var before := canvas[..];
    for dy := 0 to b
      invariant forall px, py :: 0 <= px < w && 0 <= py < h ==>
        Cell(canvas[..], w, px, py) == if x - off <= px < x - off + b
          && y - off <= py < y - off + dy then c else Cell(before, w, px, py)
    {
      for dx := 0 to b
        invariant forall px, py :: 0 <= px < w && 0 <= py < h ==>
          Cell(canvas[..], w, px, py) == if x - off <= px < x - off + b && y - off <= py < y - off + dy then c
                                         else if x - off <= px < x - off + dx && py == y - off + dy then c
                                         else Cell(before, w, px, py)
      {
        PutPixel(canvas, w, h, x - off + dx, y - off + dy, c);
      }
    }
  }

  /** Draws the line. The loop leaves on exact equality with the target, after max(dx, dy) + 1 points. */
  method DrawLine(canvas: array<u8>, w: nat, h: nat, b: nat, startX: int, startY: int, x1: int, y1: int, c: u8)
    requires canvas.Length == w * h
    modifies canvas
    ensures Painted(old(canvas[..]), canvas[..], w, h, b, c,
                    Points(startX, startY, x1, y1, LastPoint(startX, startY, x1, y1) + 1))
  {
    hide Cell, UnderBrush, Point, XSteps, YSteps, Err;
    ghost var before := canvas[..];
    var x0, y0 := startX, startY;
    var dx := if x1 > x0 then x1 - x0 else x0 - x1;
    var dy := if y1 > y0 then y1 - y0 else y0 - y1;
    var sx, sy := Sign(x0, x1), Sign(y0, y1);
    var err := dx - dy;
    ghost var n := 0;
    StepsStart(dx, dy);
    while true
      invariant n <= Max(dx, dy) && err == Err(dx, dy, XSteps(dx, dy, n), YSteps(dx, dy, n))
      invariant x0 == startX + sx * XSteps(dx, dy, n) && y0 == startY + sy * YSteps(dx, dy, n)
      invariant Painted(before, canvas[..], w, h, b, c, Points(startX, startY, x1, y1, n))
      decreases Max(dx, dy) - n
    {
      ghost var mid := canvas[..];
      Stamp(canvas, w, h, b, x0, y0, c);
      PointIs(startX, startY, x1, y1, n);
      BrushIs(b, x0, y0);
      PaintedNext(before, mid, canvas[..], w, h, b, c, Points(startX, startY, x1, y1, n), (x0, y0));
      ReachedAtLast(dx, dy, n);
      if x0 == x1 && y0 == y1 {
        break;
      }
      WalkStep(dx, dy, n);
      var e2 := err * 2;
      ErrStep(dx, dy, XSteps(dx, dy, n), YSteps(dx, dy, n), if e2 > 0 - dy then 1 else 0, if e2 < dx then 1 else 0);
      if e2 > 0 - dy {
        err := err - dy;
        x0 := x0 + sx;
      }
      if e2 < dx {
        err := err + dx;
        y0 := y0 + sy;
      }
      n := n + 1;
    }
  }

  lemma StepsStart(dx: nat, dy: nat)
    ensures XSteps(dx, dy, 0) == 0 == YSteps(dx, dy, 0) && Err(dx, dy, 0, 0) == dx - dy
  {
    Ends(Max(dx, dy), if dx >= dy then dy else dx);
  }

  lemma PointIs(x0: int, y0: int, x1: int, y1: int, n: nat)
    ensures var (dx, dy) := (Abs(x1 - x0), Abs(y1 - y0));
      Point(x0, y0, x1, y1, n) == (x0 + Sign(x0, x1) * XSteps(dx, dy, n), y0 + Sign(y0, y1) * YSteps(dx, dy, n))
  {
    hide Minor;
  }

  lemma PaintedNext(before: seq<u8>, mid: seq<u8>, after: seq<u8>, w: nat, h: nat, b: nat, c: u8,
      points: seq<(int, int)>, p: (int, int))
    requires Painted(before, mid, w, h, b, c, points) && |after| == |mid|
    requires forall px, py :: 0 <= px < w && 0 <= py < h ==>
               Cell(after, w, px, py) == if UnderBrush(b, p.0, p.1, px, py) then c else Cell(mid, w, px, py)
    ensures Painted(before, after, w, h, b, c, points + [p])
  {
    hide Cell, UnderBrush;
    forall px, py | 0 <= px < w && 0 <= py < h
      ensures Cell(after, w, px, py) == if Touched(b, points + [p], px, py) then c else Cell(before, w, px, py)
    {
      TouchedNext(b, points, p, px, py);
    }
  }

  lemma TouchedNext(b: nat, points: seq<(int, int)>, p: (int, int), px: int, py: int)
    ensures Touched(b, points + [p], px, py) <==> Touched(b, points, px, py) || UnderBrush(b, p.0, p.1, px, py)
  {
    hide UnderBrush;
    var more := points + [p];
    if Touched(b, points, px, py) {
      var k :| 0 <= k < |points| && UnderBrush(b, points[k].0, points[k].1, px, py);
      assert UnderBrush(b, more[k].0, more[k].1, px, py);
    }
    if UnderBrush(b, p.0, p.1, px, py) {
      assert UnderBrush(b, more[|points|].0, more[|points|].1, px, py);
    }
  }
}
