/** How a placed piece is drawn: its pixel footprint on the board, and for a
    plate one stud per cell, enumerated row by row. */
module Studs {
  import opened Types

  /** One stud, in cell coordinates local to its piece. */
  datatype StudView = StudView(x: int, y: int, color: Color)

  /** A pixel rectangle. */
  datatype Rect = Rect(left: int, top: int, width: int, height: int)

  /** The studs `Array.from({ length: width * height }).map(...)` renders,
      gated on the piece being a plate: stud `i` sits at column `i % width`,
      row `floor(i / width)`. */
  function Studs(p: LegoPiece): (r: seq<StudView>)
    requires p.size.width >= 0 && p.size.height >= 0
    ensures p.kind == Tile ==> r == []
    ensures p.kind == Plate ==> |r| == p.size.width * p.size.height
  {
    if p.kind == Plate then
      seq(p.size.width * p.size.height, i requires 0 <= i < p.size.width * p.size.height =>
        StudView(i % p.size.width, i / p.size.width, p.color))
    else []
  }

  /** Every stud lies on a cell of the piece and has the piece's colour. */
  lemma StudsInRange(p: LegoPiece, i: int)
    requires p.size.width >= 0 && p.size.height >= 0
    requires 0 <= i < |Studs(p)|
    ensures 0 <= Studs(p)[i].x < p.size.width
    ensures 0 <= Studs(p)[i].y < p.size.height
    ensures Studs(p)[i].color == p.color
  {
    var w, h := p.size.width, p.size.height;
    assert p.kind == Plate && 0 <= i < w * h;
    assert Studs(p)[i] == StudView(i % w, i / w, p.color);
    DivBound(i, w, h);
  }

  lemma MulMonotone(w: int, a: int, b: int)
    requires w >= 0 && a <= b
    ensures w * a <= w * b
  {
  }

  /** Distinct stud indices give distinct stud positions. */
  lemma StudsInjective(p: LegoPiece, i: int, j: int)
    requires p.size.width >= 0 && p.size.height >= 0
    requires 0 <= i < |Studs(p)| && 0 <= j < |Studs(p)| && i != j
    ensures (Studs(p)[i].x, Studs(p)[i].y) != (Studs(p)[j].x, Studs(p)[j].y)
  {
    var w := p.size.width;
    assert i == w * (i / w) + i % w;
    assert j == w * (j / w) + j % w;
  }

  /** Every cell of a plate carries a stud: cell `(a, b)` is stud `b * width + a`. */
  lemma StudsCoverPlate(p: LegoPiece, a: int, b: int)
    requires p.size.width >= 0 && p.size.height >= 0
    requires p.kind == Plate
    requires 0 <= a < p.size.width && 0 <= b < p.size.height
    ensures 0 <= b * p.size.width + a < |Studs(p)|
    ensures Studs(p)[b * p.size.width + a] == StudView(a, b, p.color)
  {
    var w, h := p.size.width, p.size.height;
    var i := b * w + a;
    assert b * w <= (h - 1) * w by { MulMonotone(w, b, h - 1); }
    assert (h - 1) * w + w == h * w;
    DivModUnique(i, w, b, a);
  }

  /** Stud indices below `w * h` fall in rows below `h`. */
  lemma DivBound(i: int, w: int, h: int)
    requires w > 0 && 0 <= i < w * h
    ensures i / w < h
  {
    var q := i / w;
    assert q * w <= i;
    if h <= q {
      MulMonotone(w, h, q);
    }
  }

  /** The quotient and remainder of `b * w + a` by `w` are `b` and `a`. */
  lemma DivModUnique(i: int, w: int, b: int, a: int)
    requires w > 0 && 0 <= a < w && 0 <= b && i == b * w + a
    ensures i / w == b && i % w == a
  {
    var q := i / w;
    if q < b {
      MulMonotone(w, q + 1, b);
    }
    if b < q {
      MulMonotone(w, b + 1, q);
    }
  }

  /** The piece's box on the board, in pixels. */
  function Footprint(p: LegoPiece): Rect
  {
    Rect(p.position.x * CellPixels, p.position.y * CellPixels,
         p.size.width * CellPixels, p.size.height * CellPixels)
  }

  /** A stud's 16-pixel disc, offset 4 pixels into its cell, relative to the piece. */
  function StudBox(s: StudView): Rect
  {
    Rect(s.x * CellPixels + 4, s.y * CellPixels + 4, 16, 16)
  }

  /** Each stud's disc lies inside its piece's footprint. */
  lemma StudInsideFootprint(p: LegoPiece, i: int)
    requires p.size.width >= 0 && p.size.height >= 0
    requires 0 <= i < |Studs(p)|
    ensures var b, f := StudBox(Studs(p)[i]), Footprint(p);
      0 <= b.left && b.left + b.width <= f.width
      && 0 <= b.top && b.top + b.height <= f.height
  {
    StudsInRange(p, i);
  }
}
