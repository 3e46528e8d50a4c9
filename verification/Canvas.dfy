/** A canvas of width * height cells in row order. */
module Canvas {
  import opened TwosComplement

  /** The cell at column x of row y. */
  function Index(w: nat, x: nat, y: nat): nat {
    y * w + x
  }

  lemma IndexIs(w: nat, x: nat, y: nat)
    requires x < w
    ensures Index(w, x, y) % w == x && Index(w, x, y) / w == y
  {
    DivModUnique(y * w + x, w, y, x);
  }

  lemma IndexInside(w: nat, h: nat, x: nat, y: nat)
    requires x < w && y < h
    ensures Index(w, x, y) < w * h
  {
    assert (h - 1 - y) * w >= 0;
    assert w * h == y * w + (h - 1 - y) * w + w by {
      assert (y + (h - 1 - y) + 1) * w == y * w + (h - 1 - y) * w + w;
    }
  }

  lemma Coordinates(w: nat, h: nat, i: nat)
    requires i < w * h
    ensures w > 0 && i % w < w && i / w < h && i == Index(w, i % w, i / w)
  {
    assert w > 0;
    assert i == w * (i / w) + i % w;
    RowBelow(w, h, i / w, i % w);
  }

  lemma RowBelow(w: nat, h: nat, q: nat, r: nat)
    requires w * q + r < w * h && w > 0
    ensures q < h
  {
    var d := q - h;
    assert w * q == w * h + w * d;
    assert d >= 0 ==> w * d >= 0;
  }
}
