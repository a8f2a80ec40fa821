/** The gallery card's trimming of a design's pixel matrix: find the bounding
    box of the coloured cells, pad it by one cell and clamp it to the matrix, and
    cut that sub-matrix out. Also the card's choice of a dominant colour. */
module GalleryTrim {
  import opened Wrappers
  import opened Designs

  function Min(a: int, b: int): int { if a <= b then a else b }
  function Max(a: int, b: int): int { if a >= b then a else b }

  /** An inclusive box of cells, x in [minX, maxX] and y in [minY, maxY]. */
  datatype Box = Box(minX: int, minY: int, maxX: int, maxY: int)

  predicate InBox(b: Box, x: int, y: int) {
    b.minX <= x <= b.maxX && b.minY <= y <= b.maxY
  }

  /** The cell (x, y) exists and is coloured. */
  predicate FilledAt(m: Matrix, y: int, x: int) {
    0 <= y < |m| && 0 <= x < |m[y]| && Filled(m[y][x])
  }

  ghost predicate NoFilled(m: Matrix) {
    forall y, x :: !FilledAt(m, y, x)
  }

  /** `b` is the tightest box around the coloured cells: it holds every one of
      them and each of its four sides passes through one. */
  ghost predicate IsTightBox(m: Matrix, b: Box) {
    (forall y, x :: FilledAt(m, y, x) ==> InBox(b, x, y)) &&
    (exists y, x :: FilledAt(m, y, x) && x == b.minX) &&
    (exists y, x :: FilledAt(m, y, x) && x == b.maxX) &&
    (exists y, x :: FilledAt(m, y, x) && y == b.minY) &&
    (exists y, x :: FilledAt(m, y, x) && y == b.maxY)
  }

  // ---------------------------------------------------------------------------
  // First pass: the bounds, as the scan computes them

  /** One `Math.min`/`Math.max` update; `None` stands for the ±Infinity start. */
  function Extend(ob: Option<Box>, x: int, y: int): Box {
    match ob
    case None => Box(x, y, x, y)
    case Some(b) => Box(Min(b.minX, x), Min(b.minY, y), Max(b.maxX, x), Max(b.maxY, y))
  }

  /** The bounds after visiting cells 0 .. k-1 of row y, starting from `ob`. */
  function ScanRow(ob: Option<Box>, row: seq<Cell>, y: int, k: nat): Option<Box>
    requires k <= |row|
  {
    if k == 0 then ob
    else
      var prev := ScanRow(ob, row, y, k - 1);
      if Filled(row[k - 1]) then Some(Extend(prev, k - 1, y)) else prev
  }

  /** The bounds after visiting rows 0 .. n-1. */
  function ScanRows(m: Matrix, n: nat): Option<Box>
    requires n <= |m|
  {
    if n == 0 then None else ScanRow(ScanRows(m, n - 1), m[n - 1], n - 1, |m[n - 1]|)
  }

  /** The bounds of the whole matrix; `None` when no cell is coloured. */
  function FilledBounds(m: Matrix): Option<Box> {
    ScanRows(m, |m|)
  }

  /** The coloured cells the scan has visited before reaching cell (k, n). */
  predicate Scanned(m: Matrix, n: int, k: int, y: int, x: int) {
    FilledAt(m, y, x) && (y < n || (y == n && x < k))
  }

  /** `ob` is the tight box of the cells scanned before (k, n), or `None` when
      there are none. */
  ghost predicate TightSoFar(m: Matrix, n: int, k: int, ob: Option<Box>) {
    match ob
    case None => forall y, x :: !Scanned(m, n, k, y, x)
    case Some(b) =>
      (forall y, x :: Scanned(m, n, k, y, x) ==> InBox(b, x, y)) &&
      (exists y, x :: Scanned(m, n, k, y, x) && x == b.minX) &&
      (exists y, x :: Scanned(m, n, k, y, x) && x == b.maxX) &&
      (exists y, x :: Scanned(m, n, k, y, x) && y == b.minY) &&
      (exists y, x :: Scanned(m, n, k, y, x) && y == b.maxY)
  }

  /** Tightness depends only on which cells count as scanned. */
  lemma TightTransfer(m: Matrix, n1: int, k1: int, n2: int, k2: int, ob: Option<Box>)
    requires forall y, x :: Scanned(m, n1, k1, y, x) <==> Scanned(m, n2, k2, y, x)
    requires TightSoFar(m, n1, k1, ob)
    ensures TightSoFar(m, n2, k2, ob)
  {
    match ob
    case None =>
      forall y, x ensures !Scanned(m, n2, k2, y, x) {
        assert !Scanned(m, n1, k1, y, x);
      }
    case Some(a) =>
      forall y, x | Scanned(m, n2, k2, y, x) ensures InBox(a, x, y) {
        assert Scanned(m, n1, k1, y, x);
      }
      var y0, x0 :| Scanned(m, n1, k1, y0, x0) && x0 == a.minX;
      assert Scanned(m, n2, k2, y0, x0);
      var y1, x1 :| Scanned(m, n1, k1, y1, x1) && x1 == a.maxX;
      assert Scanned(m, n2, k2, y1, x1);
      var y2, x2 :| Scanned(m, n1, k1, y2, x2) && y2 == a.minY;
      assert Scanned(m, n2, k2, y2, x2);
      var y3, x3 :| Scanned(m, n1, k1, y3, x3) && y3 == a.maxY;
      assert Scanned(m, n2, k2, y3, x3);
  }

  lemma ScanCellStep(m: Matrix, n: int, k: int, ob: Option<Box>)
    requires 0 <= n < |m| && 0 <= k < |m[n]|
    requires TightSoFar(m, n, k, ob)
    ensures TightSoFar(m, n, k + 1, if Filled(m[n][k]) then Some(Extend(ob, k, n)) else ob)
  {
    if Filled(m[n][k]) {
      assert Scanned(m, n, k + 1, n, k);
      var b := Extend(ob, k, n);
      forall y, x | Scanned(m, n, k + 1, y, x) ensures InBox(b, x, y) {
        if !(y == n && x == k) {
          assert Scanned(m, n, k, y, x);
          if ob.Some? {
            assert InBox(ob.value, x, y);
          }
        }
      }
      if ob.Some? {
        var a := ob.value;
        if b.minX != k {
          var y, x :| Scanned(m, n, k, y, x) && x == a.minX;
          assert Scanned(m, n, k + 1, y, x);
        }
        if b.maxX != k {
          var y, x :| Scanned(m, n, k, y, x) && x == a.maxX;
          assert Scanned(m, n, k + 1, y, x);
        }
        if b.minY != n {
          var y, x :| Scanned(m, n, k, y, x) && y == a.minY;
          assert Scanned(m, n, k + 1, y, x);
        }
      }
    } else {
      forall y, x ensures Scanned(m, n, k, y, x) <==> Scanned(m, n, k + 1, y, x) {
      }
      TightTransfer(m, n, k, n, k + 1, ob);
    }
  }

  lemma {:induction false} ScanRowTight(m: Matrix, n: int, k: nat, ob: Option<Box>)
    requires 0 <= n < |m| && k <= |m[n]|
    requires TightSoFar(m, n, 0, ob)
    ensures TightSoFar(m, n, k, ScanRow(ob, m[n], n, k))
  {
    if k > 0 {
      ScanRowTight(m, n, k - 1, ob);
      ScanCellStep(m, n, k - 1, ScanRow(ob, m[n], n, k - 1));
    }
  }

  lemma RowEndStep(m: Matrix, n: int, ob: Option<Box>)
    requires 0 <= n < |m|
    requires TightSoFar(m, n, |m[n]|, ob)
    ensures TightSoFar(m, n + 1, 0, ob)
  {
    forall y, x ensures Scanned(m, n, |m[n]|, y, x) <==> Scanned(m, n + 1, 0, y, x) {
    }
    TightTransfer(m, n, |m[n]|, n + 1, 0, ob);
  }

  lemma {:induction false} ScanRowsTight(m: Matrix, n: nat)
    requires n <= |m|
    ensures TightSoFar(m, n, 0, ScanRows(m, n))
  {
    if n > 0 {
      ScanRowsTight(m, n - 1);
      ScanRowTight(m, n - 1, |m[n - 1]|, ScanRows(m, n - 1));
      RowEndStep(m, n - 1, ScanRows(m, n));
    }
  }

  /** The computed minX..maxY are the tightest bounds of the coloured cells, and
      there are none exactly when no cell is coloured. */
  lemma FilledBoundsTight(m: Matrix)
    ensures FilledBounds(m).None? <==> NoFilled(m)
    ensures FilledBounds(m).Some? ==> IsTightBox(m, FilledBounds(m).value)
  {
    ScanRowsTight(m, |m|);
    forall y, x ensures Scanned(m, |m|, 0, y, x) <==> FilledAt(m, y, x) {
    }
    if FilledBounds(m).Some? {
      var b := FilledBounds(m).value;
      var y, x :| Scanned(m, |m|, 0, y, x) && x == b.minX;
      assert FilledAt(m, y, x);
    }
  }

  /** The tightest box is unique. */
  lemma TightBoxUnique(m: Matrix, b1: Box, b2: Box)
    requires IsTightBox(m, b1) && IsTightBox(m, b2)
    ensures b1 == b2
  {
    var y0, x0 :| FilledAt(m, y0, x0) && x0 == b1.minX;
    var y1, x1 :| FilledAt(m, y1, x1) && x1 == b2.minX;
    assert InBox(b2, x0, y0) && InBox(b1, x1, y1);
    var y2, x2 :| FilledAt(m, y2, x2) && x2 == b1.maxX;
    var y3, x3 :| FilledAt(m, y3, x3) && x3 == b2.maxX;
    assert InBox(b2, x2, y2) && InBox(b1, x3, y3);
    var y4, x4 :| FilledAt(m, y4, x4) && y4 == b1.minY;
    var y5, x5 :| FilledAt(m, y5, x5) && y5 == b2.minY;
    assert InBox(b2, x4, y4) && InBox(b1, x5, y5);
    var y6, x6 :| FilledAt(m, y6, x6) && y6 == b1.maxY;
    var y7, x7 :| FilledAt(m, y7, x7) && y7 == b2.maxY;
    assert InBox(b2, x6, y6) && InBox(b1, x7, y7);
  }

  /** The first pass: a nested scan updating minX, minY, maxX, maxY. */
  method FindBounds(m: Matrix) returns (found: Option<Box>)
    ensures found == FilledBounds(m)
  {
    found := None;
    var y := 0;
    while y < |m|
      invariant 0 <= y <= |m|
      invariant found == ScanRows(m, y)
    {
      var row := m[y];
      var x := 0;
      while x < |row|
        invariant 0 <= x <= |row|
        invariant found == ScanRow(ScanRows(m, y), row, y, x)
      {
        if Filled(row[x]) {
          found := Some(Extend(found, x, y));
        }
        x := x + 1;
      }
      y := y + 1;
    }
  }

  // ---------------------------------------------------------------------------
  // Padding and the second pass

  /** Grows the box by one cell on each side, clamped to rows 0 .. rows-1 and to
      the columns of row 0. */
  function Pad(b: Box, rows: int, cols: int): (p: Box)
    ensures 0 <= p.minX && p.maxX <= cols - 1 && 0 <= p.minY && p.maxY <= rows - 1
    ensures 0 <= b.minX ==> p.minX <= b.minX && b.minX - 1 <= p.minX
    ensures 0 <= b.minY ==> p.minY <= b.minY && b.minY - 1 <= p.minY
    ensures b.maxX < cols ==> b.maxX <= p.maxX <= b.maxX + 1
    ensures b.maxY < rows ==> b.maxY <= p.maxY <= b.maxY + 1
  {
    Box(Max(0, b.minX - 1), Max(0, b.minY - 1), Min(cols - 1, b.maxX + 1), Min(rows - 1, b.maxY + 1))
  }

  /** The number of iterations of `for (v = lo; v <= hi; v++)`. */
  function Span(lo: int, hi: int): nat {
    if lo <= hi then hi - lo + 1 else 0
  }

  /** `pixelData[y][x]`; a read past the end of a row yields `undefined`, which
      every consumer treats like null. */
  function CellAt(m: Matrix, y: int, x: int): Cell {
    if 0 <= y < |m| && 0 <= x < |m[y]| then m[y][x] else None
  }

  function ExtractRow(m: Matrix, p: Box, y: int): seq<Cell> {
    seq(Span(p.minX, p.maxX), j => CellAt(m, y, p.minX + j))
  }

  /** The sub-matrix under box `p`, row by row. */
  function Extract(m: Matrix, p: Box): Matrix {
    seq(Span(p.minY, p.maxY), i => ExtractRow(m, p, p.minY + i))
  }

  /** What the card shows for a non-empty matrix: the padded sub-matrix, or the
      matrix itself when no cell is coloured. */
  function Trim(m: Matrix): Matrix
    requires |m| > 0
  {
    match FilledBounds(m)
    case None => m
    case Some(b) => Extract(m, Pad(b, |m|, |m[0]|))
  }

  /** The second pass: nested loops pushing each cell of the box into a new row. */
  method ExtractBox(m: Matrix, p: Box) returns (trimmed: Matrix)
    ensures trimmed == Extract(m, p)
  {
    trimmed := [];
    var y := p.minY;
    while y <= p.maxY
      invariant p.minY <= y || p.maxY < p.minY
      invariant |trimmed| == if p.maxY < p.minY then 0 else y - p.minY
      invariant |trimmed| <= Span(p.minY, p.maxY)
      invariant forall i :: 0 <= i < |trimmed| ==> trimmed[i] == ExtractRow(m, p, p.minY + i)
    {
      var newRow: seq<Cell> := [];
      var x := p.minX;
      while x <= p.maxX
        invariant p.minX <= x
        invariant |newRow| == x - p.minX <= Span(p.minX, p.maxX)
        invariant forall j :: 0 <= j < |newRow| ==> newRow[j] == CellAt(m, y, p.minX + j)
      {
        newRow := newRow + [CellAt(m, y, x)];
        x := x + 1;
      }
      trimmed := trimmed + [newRow];
      y := y + 1;
    }
  }

  /** The trimming step of the card's effect, for a non-empty matrix. */
  method TrimPixelData(m: Matrix) returns (trimmed: Matrix)
    requires |m| > 0
    ensures trimmed == Trim(m)
  {
    var found := FindBounds(m);
    if found.Some? {
      var p := Pad(found.value, |m|, |m[0]|);
      trimmed := ExtractBox(m, p);
    } else {
      trimmed := m;
    }
  }

  // ---------------------------------------------------------------------------
  // Properties of the trim

  /** On a rectangular matrix, a box inside the matrix is cut out as
      maxY−minY+1 rows, each the slice [minX, maxX] of its row. */
  lemma ExtractShape(m: Matrix, p: Box)
    requires |m| > 0 && Rectangular(m)
    requires 0 <= p.minX <= p.maxX < |m[0]| && 0 <= p.minY <= p.maxY < |m|
    ensures var t := Extract(m, p);
            |t| == p.maxY - p.minY + 1 &&
            (forall i :: 0 <= i < |t| ==> |t[i]| == p.maxX - p.minX + 1) &&
            (forall i :: 0 <= i < |t| ==> t[i] == m[p.minY + i][p.minX..p.maxX + 1]) &&
            (forall i, j :: 0 <= i < |t| && 0 <= j < |t[i]| ==> t[i][j] == m[p.minY + i][p.minX + j])
  {
    var t := Extract(m, p);
    forall i | 0 <= i < |t|
      ensures |t[i]| == p.maxX - p.minX + 1
      ensures t[i] == m[p.minY + i][p.minX..p.maxX + 1]
    {
      assert t[i] == ExtractRow(m, p, p.minY + i);
      assert |m[p.minY + i]| == |m[0]|;
      forall j | 0 <= j < |t[i]| ensures t[i][j] == m[p.minY + i][p.minX..p.maxX + 1][j] {
      }
    }
  }

  /** On a rectangular matrix with a coloured cell, the box holds every coloured
      cell, lies inside the matrix, and so does its padding. */
  lemma PaddedBoxInside(m: Matrix)
    requires |m| > 0 && Rectangular(m) && !NoFilled(m)
    ensures FilledBounds(m).Some?
    ensures var b := FilledBounds(m).value;
            var p := Pad(b, |m|, |m[0]|);
            0 <= b.minX <= b.maxX < |m[0]| && 0 <= b.minY <= b.maxY < |m| &&
            p.minX <= b.minX && b.maxX <= p.maxX && p.minY <= b.minY && b.maxY <= p.maxY
  {
    FilledBoundsTight(m);
    var b := FilledBounds(m).value;
    var y, x :| FilledAt(m, y, x);
    assert InBox(b, x, y);
    var y0, x0 :| FilledAt(m, y0, x0) && x0 == b.maxX;
    assert |m[y0]| == |m[0]|;
    var y1, x1 :| FilledAt(m, y1, x1) && y1 == b.maxY;
    var y2, x2 :| FilledAt(m, y2, x2) && x2 == b.minX;
    var y3, x3 :| FilledAt(m, y3, x3) && y3 == b.minY;
  }

  /** On a rectangular matrix with a coloured cell, the padded box lies inside the
      matrix and the result has maxY−minY+1 rows of maxX−minX+1 cells, with
      trimmed[i][j] = pixelData[minY+i][minX+j]. */
  lemma TrimShape(m: Matrix)
    requires |m| > 0 && Rectangular(m) && !NoFilled(m)
    ensures FilledBounds(m).Some?
    ensures var p := Pad(FilledBounds(m).value, |m|, |m[0]|);
            var t := Trim(m);
            0 <= p.minX <= p.maxX < |m[0]| && 0 <= p.minY <= p.maxY < |m| &&
            |t| == p.maxY - p.minY + 1 &&
            (forall i :: 0 <= i < |t| ==> |t[i]| == p.maxX - p.minX + 1) &&
            (forall i :: 0 <= i < |t| ==> t[i] == m[p.minY + i][p.minX..p.maxX + 1]) &&
            (forall i, j :: 0 <= i < |t| && 0 <= j < |t[i]| ==> t[i][j] == m[p.minY + i][p.minX + j])
  {
    PaddedBoxInside(m);
    ExtractShape(m, Pad(FilledBounds(m).value, |m|, |m[0]|));
  }

  /** A matrix with no coloured cell is shown unchanged. */
  lemma TrimAllEmpty(m: Matrix)
    requires |m| > 0 && NoFilled(m)
    ensures Trim(m) == m
  {
    FilledBoundsTight(m);
  }

  /** The multiset of colours of the coloured cells of a row. */
  function RowColors(row: seq<Cell>): multiset<string> {
    if row == [] then multiset{}
    else RowColors(row[..|row| - 1]) + (if Filled(row[|row| - 1]) then multiset{row[|row| - 1].value} else multiset{})
  }

  /** The multiset of colours of the coloured cells of a matrix. */
  function Colors(m: Matrix): multiset<string> {
    if m == [] then multiset{} else Colors(m[..|m| - 1]) + RowColors(m[|m| - 1])
  }

  lemma {:induction false} RowColorsAppend(a: seq<Cell>, b: seq<Cell>)
    ensures RowColors(a + b) == RowColors(a) + RowColors(b)
  {
    if b != [] {
      assert (a + b)[..|a + b| - 1] == a + b[..|b| - 1];
      RowColorsAppend(a, b[..|b| - 1]);
    } else {
      assert a + b == a;
    }
  }

  lemma {:induction false} RowColorsNone(a: seq<Cell>)
    requires forall j :: 0 <= j < |a| ==> !Filled(a[j])
    ensures RowColors(a) == multiset{}
  {
    if a != [] {
      RowColorsNone(a[..|a| - 1]);
    }
  }

  lemma {:induction false} ColorsAppend(a: Matrix, b: Matrix)
    ensures Colors(a + b) == Colors(a) + Colors(b)
  {
    if b != [] {
      assert (a + b)[..|a + b| - 1] == a + b[..|b| - 1];
      ColorsAppend(a, b[..|b| - 1]);
    } else {
      assert a + b == a;
    }
  }

  lemma {:induction false} ColorsNone(a: Matrix)
    requires forall i, j :: 0 <= i < |a| && 0 <= j < |a[i]| ==> !Filled(a[i][j])
    ensures Colors(a) == multiset{}
  {
    if a != [] {
      ColorsNone(a[..|a| - 1]);
      RowColorsNone(a[|a| - 1]);
    }
  }

  /** A row whose coloured cells all lie in [lo, hi) keeps its colours when cut
      to that slice. */
  lemma RowSliceColors(row: seq<Cell>, lo: int, hi: int)
    requires 0 <= lo <= hi <= |row|
    requires forall j :: 0 <= j < |row| && Filled(row[j]) ==> lo <= j < hi
    ensures RowColors(row[lo..hi]) == RowColors(row)
  {
    var left, mid, right := row[..lo], row[lo..hi], row[hi..];
    assert row == left + mid + right;
    forall j | 0 <= j < |left| ensures !Filled(left[j]) {
      assert left[j] == row[j];
    }
    forall j | 0 <= j < |right| ensures !Filled(right[j]) {
      assert right[j] == row[hi + j];
    }
    RowColorsNone(left);
    RowColorsNone(right);
    RowColorsAppend(left + mid, right);
    RowColorsAppend(left, mid);
  }

  /** Row i of `t` is row i of `src` cut to the columns [cl, ch). */
  predicate RowsCut(src: Matrix, t: Matrix, cl: int, ch: int) {
    |t| == |src| &&
    forall i :: 0 <= i < |src| ==> 0 <= cl <= ch <= |src[i]| && t[i] == src[i][cl..ch]
  }

  /** Every coloured cell of `src` lies in the columns [cl, ch). */
  predicate FilledInColumns(src: Matrix, cl: int, ch: int) {
    forall i, j :: 0 <= i < |src| && 0 <= j < |src[i]| && Filled(src[i][j]) ==> cl <= j < ch
  }

  /** Cutting the rows to columns that hold all coloured cells keeps the colours
      of the first n rows. */
  lemma {:induction false} SlicedPrefixColors(src: Matrix, t: Matrix, cl: int, ch: int, n: nat)
    requires RowsCut(src, t, cl, ch) && FilledInColumns(src, cl, ch) && n <= |src|
    ensures Colors(t[..n]) == Colors(src[..n])
  {
    if n > 0 {
      SlicedPrefixColors(src, t, cl, ch, n - 1);
      assert t[..n][..n - 1] == t[..n - 1] && t[..n][n - 1] == t[n - 1];
      assert src[..n][..n - 1] == src[..n - 1] && src[..n][n - 1] == src[n - 1];
      assert t[n - 1] == src[n - 1][cl..ch];
      RowSliceColors(src[n - 1], cl, ch);
    }
  }

  /** Cutting every row of `src` to the columns [cl, ch), which hold all its
      coloured cells, keeps the colours. */
  lemma SlicedRowsColors(src: Matrix, t: Matrix, cl: int, ch: int)
    requires RowsCut(src, t, cl, ch) && FilledInColumns(src, cl, ch)
    ensures Colors(t) == Colors(src)
  {
    SlicedPrefixColors(src, t, cl, ch, |src|);
    assert t[..|t|] == t && src[..|src|] == src;
  }

  /** Dropping rows that hold no coloured cell keeps the colours. */
  lemma RowRangeColors(m: Matrix, lo: int, hi: int)
    requires 0 <= lo <= hi <= |m|
    requires forall y, x :: FilledAt(m, y, x) ==> lo <= y < hi
    ensures Colors(m[lo..hi]) == Colors(m)
  {
    var top, mid, bottom := m[..lo], m[lo..hi], m[hi..];
    assert m == top + mid + bottom;
    forall i, j | 0 <= i < |top| && 0 <= j < |top[i]| ensures !Filled(top[i][j]) {
      if Filled(top[i][j]) {
        assert FilledAt(m, i, j);
      }
    }
    forall i, j | 0 <= i < |bottom| && 0 <= j < |bottom[i]| ensures !Filled(bottom[i][j]) {
      if Filled(bottom[i][j]) {
        assert FilledAt(m, hi + i, j);
      }
    }
    ColorsNone(top);
    ColorsNone(bottom);
    ColorsAppend(top + mid, bottom);
    ColorsAppend(top, mid);
  }

  /** Cutting out a box that holds every coloured cell keeps the colours. */
  lemma ExtractKeepsColors(m: Matrix, p: Box)
    requires |m| > 0 && Rectangular(m)
    requires 0 <= p.minX <= p.maxX < |m[0]| && 0 <= p.minY <= p.maxY < |m|
    requires forall y, x :: FilledAt(m, y, x) ==> InBox(p, x, y)
    ensures Colors(Extract(m, p)) == Colors(m)
  {
    ExtractShape(m, p);
    var t := Extract(m, p);
    var lo, hi := p.minY, p.maxY + 1;
    var mid := m[lo..hi];
    forall i, j | 0 <= i < |mid| && 0 <= j < |mid[i]| && Filled(mid[i][j])
      ensures p.minX <= j < p.maxX + 1
    {
      assert FilledAt(m, lo + i, j);
    }
    forall i | 0 <= i < |mid| ensures 0 <= p.minX <= p.maxX + 1 <= |mid[i]| && t[i] == mid[i][p.minX..p.maxX + 1] {
      assert mid[i] == m[lo + i];
    }
    assert RowsCut(mid, t, p.minX, p.maxX + 1);
    assert FilledInColumns(mid, p.minX, p.maxX + 1);
    SlicedRowsColors(mid, t, p.minX, p.maxX + 1);
    forall y, x | FilledAt(m, y, x) ensures lo <= y < hi {
      assert InBox(p, x, y);
    }
    RowRangeColors(m, lo, hi);
  }

  /** The padded box holds every coloured cell. */
  lemma PaddedBoxHoldsFilled(m: Matrix)
    requires |m| > 0 && Rectangular(m) && !NoFilled(m)
    ensures FilledBounds(m).Some?
    ensures forall y, x :: FilledAt(m, y, x) ==> InBox(Pad(FilledBounds(m).value, |m|, |m[0]|), x, y)
  {
    PaddedBoxInside(m);
    FilledBoundsTight(m);
    var b := FilledBounds(m).value;
    forall y, x | FilledAt(m, y, x) ensures InBox(Pad(b, |m|, |m[0]|), x, y) {
      assert InBox(b, x, y);
    }
  }

  /** Without `Rectangular` the padded box can miss a coloured cell: the
      padding clamps to row 0's length. */
  lemma RaggedPaddingMissesCell()
    ensures var m: Matrix := [[None], [None, Some("r")]];
      && FilledBounds(m) == Some(Box(1, 1, 1, 1))
      && FilledAt(m, 1, 1)
      && !InBox(Pad(FilledBounds(m).value, |m|, |m[0]|), 1, 1)
  {
    var m: Matrix := [[None], [None, Some("r")]];
    FilledBoundsTight(m);
  }

  /** No coloured cell is lost: on a rectangular matrix the trimmed matrix holds
      the same multiset of colours as the input. */
  lemma TrimKeepsColors(m: Matrix)
    requires |m| > 0 && Rectangular(m)
    ensures Colors(Trim(m)) == Colors(m)
  {
    FilledBoundsTight(m);
    if !NoFilled(m) {
      PaddedBoxInside(m);
      PaddedBoxHoldsFilled(m);
      ExtractKeepsColors(m, Pad(FilledBounds(m).value, |m|, |m[0]|));
    }
  }

  /** Cutting out a box inside the matrix shifts the tight box of the coloured
      cells by the box's corner. */
  lemma ExtractShiftsTightBox(m: Matrix, p: Box, b: Box)
    requires |m| > 0 && Rectangular(m)
    requires 0 <= p.minX <= p.maxX < |m[0]| && 0 <= p.minY <= p.maxY < |m|
    requires IsTightBox(m, b)
    requires p.minX <= b.minX && b.maxX <= p.maxX && p.minY <= b.minY && b.maxY <= p.maxY
    ensures IsTightBox(Extract(m, p), Box(b.minX - p.minX, b.minY - p.minY, b.maxX - p.minX, b.maxY - p.minY))
  {
    ExtractShape(m, p);
    var t := Extract(m, p);
    var c := Box(b.minX - p.minX, b.minY - p.minY, b.maxX - p.minX, b.maxY - p.minY);
    forall i, j | FilledAt(t, i, j) ensures InBox(c, j, i) {
      assert FilledAt(m, p.minY + i, p.minX + j);
      assert InBox(b, p.minX + j, p.minY + i);
    }
    var ya, xa :| FilledAt(m, ya, xa) && xa == b.minX;
    assert InBox(b, xa, ya) && FilledAt(t, ya - p.minY, xa - p.minX);
    var yb, xb :| FilledAt(m, yb, xb) && xb == b.maxX;
    assert InBox(b, xb, yb) && FilledAt(t, yb - p.minY, xb - p.minX);
    var yc, xc :| FilledAt(m, yc, xc) && yc == b.minY;
    assert InBox(b, xc, yc) && FilledAt(t, yc - p.minY, xc - p.minX);
    var yd, xd :| FilledAt(m, yd, xd) && yd == b.maxY;
    assert InBox(b, xd, yd) && FilledAt(t, yd - p.minY, xd - p.minX);
  }

  /** The box covering a whole rectangular matrix cuts out the matrix itself. */
  lemma ExtractWhole(t: Matrix, h: int, w: int)
    requires |t| == h > 0 && w > 0
    requires forall i :: 0 <= i < h ==> |t[i]| == w
    ensures Extract(t, Box(0, 0, w - 1, h - 1)) == t
  {
    var e := Extract(t, Box(0, 0, w - 1, h - 1));
    forall i | 0 <= i < h ensures e[i] == t[i] {
      assert e[i] == ExtractRow(t, Box(0, 0, w - 1, h - 1), i);
      assert |t[i]| == w && |e[i]| == w;
      forall j | 0 <= j < w ensures e[i][j] == t[i][j] {
        assert e[i][j] == CellAt(t, i, j);
      }
    }
  }

  /** Trimming a rectangular matrix twice gives the same result as trimming it once. */
  lemma TrimIdempotent(m: Matrix)
    requires |m| > 0 && Rectangular(m)
    ensures |Trim(m)| > 0 && Trim(Trim(m)) == Trim(m)
  {
    FilledBoundsTight(m);
    if NoFilled(m) {
      return;
    }
    PaddedBoxInside(m);
    var b := FilledBounds(m).value;
    var p := Pad(b, |m|, |m[0]|);
    ExtractShape(m, p);
    var t := Extract(m, p);
    var h, w := p.maxY - p.minY + 1, p.maxX - p.minX + 1;
    var c := Box(b.minX - p.minX, b.minY - p.minY, b.maxX - p.minX, b.maxY - p.minY);
    ExtractShiftsTightBox(m, p, b);
    FilledBoundsTight(t);
    TightBoxUnique(t, FilledBounds(t).value, c);
    assert Pad(c, h, w) == Box(0, 0, w - 1, h - 1);
    ExtractWhole(t, h, w);
  }

  // ---------------------------------------------------------------------------
  // The card's state

  /** The state a gallery card keeps for its design. */
  class GalleryItemState {
    var dominantColor: string
    var trimmedPixelData: Matrix

    constructor ()
      ensures dominantColor == "#CCCCCC" && trimmedPixelData == []
    {
      dominantColor := "#CCCCCC";
      trimmedPixelData := [];
    }

    /** The card's effect on (re)receiving a design: the first palette colour
        becomes dominant when there is one, and a non-empty matrix is trimmed;
        otherwise the previous values stay. */
    method ApplyDesign(colorPalette: seq<string>, pixelData: Matrix)
      modifies this
      ensures dominantColor == if |colorPalette| > 0 then colorPalette[0] else old(dominantColor)
      ensures trimmedPixelData == if |pixelData| > 0 then Trim(pixelData) else old(trimmedPixelData)
    {
      if |colorPalette| > 0 {
        dominantColor := colorPalette[0];
      }
      if |pixelData| > 0 {
        trimmedPixelData := TrimPixelData(pixelData);
      }
    }
  }
}
