/** The export dialog's SVG serialiser: a pixel matrix becomes an SVG document
    with a white background and, for each coloured cell in row-major order, one
    square block and one round stud. Also the preview's pixel dimensions. */
module SvgExport {
  import opened Wrappers
  import opened Designs

  /** Side of one exported cell, in SVG user units. */
  const CellSize: nat := 24
  /** `cellSize / 2`: the stud centre's offset inside its cell. */
  const StudOffset: nat := 12
  /** `cellSize * 0.25`: the stud radius. */
  const StudRadius: nat := 6

  function DigitChar(d: nat): char
    requires d < 10
  {
    "0123456789"[d]
  }

  /** The decimal text JavaScript prints for a non-negative integer. */
  function NatToString(n: nat): string
    decreases n
  {
    if n < 10 then [DigitChar(n)] else NatToString(n / 10) + [DigitChar(n % 10)]
  }

  /** The elements of the document body. */
  datatype Element =
    | Background
    | Block(x: nat, y: nat, size: nat, fill: string)
    | Stud(cx: nat, cy: nat, r: nat, fill: string)

  function Quoted(s: string): string {
    "\"" + s + "\""
  }

  /** A numeric attribute value, quoted. */
  function NumAttr(n: nat): string {
    Quoted(NatToString(n))
  }

  function ElementText(e: Element): string {
    match e
    case Background => "<rect width=\"100%\" height=\"100%\" fill=\"white\"/>"
    case Block(x, y, size, fill) =>
      "<rect x=" + NumAttr(x) + " y=" + NumAttr(y) +
      " width=" + NumAttr(size) + " height=" + NumAttr(size) +
      " fill=" + Quoted(fill) + " stroke=\"rgba(128,128,128,0.3)\" stroke-width=\"1\"/>"
    case Stud(cx, cy, r, fill) =>
      "<circle cx=" + NumAttr(cx) + " cy=" + NumAttr(cy) +
      " r=" + NumAttr(r) + " fill=" + Quoted(fill) +
      " stroke=\"rgba(0,0,0,0.2)\" stroke-width=\"0.5\"/>"
  }

  /** The opening tag for a `w` × `h` drawing. */
  function Header(w: nat, h: nat): string {
    "<svg xmlns=\"http://www.w3.org/2000/svg\" width=" + NumAttr(w) +
    " height=" + NumAttr(h) +
    " viewBox=" + Quoted("0 0 " + NatToString(w) + " " + NatToString(h)) + ">"
  }

  const Footer: string := "</svg>"

  function BlockOf(x: nat, y: nat, color: string): Element {
    Block(x * CellSize, y * CellSize, CellSize, color)
  }

  function StudOf(x: nat, y: nat, color: string): Element {
    Stud(x * CellSize + StudOffset, y * CellSize + StudOffset, StudRadius, color)
  }

  /** What one cell contributes: nothing when it is null or "". */
  function CellElements(x: nat, y: nat, c: Cell): seq<Element> {
    if Filled(c) then [BlockOf(x, y, c.value), StudOf(x, y, c.value)] else []
  }

  /** The elements of cells 0 .. k-1 of row y. */
  function RowElements(row: seq<Cell>, y: nat, k: nat): seq<Element>
    requires k <= |row|
  {
    if k == 0 then [] else RowElements(row, y, k - 1) + CellElements(k - 1, y, row[k - 1])
  }

  /** The elements of rows 0 .. n-1. */
  function RowsElements(m: Matrix, n: nat): seq<Element>
    requires n <= |m|
  {
    if n == 0 then [] else RowsElements(m, n - 1) + RowElements(m[n - 1], n - 1, |m[n - 1]|)
  }

  /** Everything between the header and the footer, in document order. */
  function Elements(m: Matrix): seq<Element> {
    [Background] + RowsElements(m, |m|)
  }

  /** The texts of `es` under `text`, one after another. */
  function ConcatMap<T>(es: seq<T>, text: T -> string): string {
    if es == [] then "" else ConcatMap(es[..|es| - 1], text) + text(es[|es| - 1])
  }

  function Render(es: seq<Element>): string {
    ConcatMap(es, ElementText)
  }

  /** The document for a non-empty matrix; the width comes from row 0. */
  function SvgDocument(m: Matrix): string
    requires |m| > 0
  {
    Header(|m[0]| * CellSize, |m| * CellSize) + Render(Elements(m)) + Footer
  }

  lemma {:induction false} ConcatMapAppend<T>(a: seq<T>, b: seq<T>, text: T -> string)
    ensures ConcatMap(a + b, text) == ConcatMap(a, text) + ConcatMap(b, text)
  {
    if b == [] {
      assert a + b == a;
    } else {
      assert (a + b)[..|a + b| - 1] == a + b[..|b| - 1];
      ConcatMapAppend(a, b[..|b| - 1], text);
    }
  }

  lemma RenderAppend(a: seq<Element>, b: seq<Element>)
    ensures Render(a + b) == Render(a) + Render(b)
  {
    ConcatMapAppend(a, b, ElementText);
  }

  lemma ConcatMapPair<T>(a: T, b: T, text: T -> string)
    ensures ConcatMap([a, b], text) == text(a) + text(b)
  {
    assert [a, b][..1] == [a];
    assert [a][..0] == [];
    assert ConcatMap([a], text) == "" + text(a) == text(a);
  }

  lemma ConcatMapSingle<T>(a: T, text: T -> string)
    ensures ConcatMap([a], text) == text(a)
  {
    assert [a][..0] == [];
    assert ConcatMap([a], text) == "" + text(a);
  }

  /** The body of the inner `forEach`: a coloured cell appends its block, then
      its stud; an empty one appends nothing. */
  method AppendCell(svgContent: string, x: nat, y: nat, color: Cell) returns (out: string)
    ensures out == svgContent + Render(CellElements(x, y, color))
  {
    out := svgContent;
    if Filled(color) {
      out := out + ElementText(BlockOf(x, y, color.value));
      out := out + ElementText(StudOf(x, y, color.value));
      ConcatMapPair(BlockOf(x, y, color.value), StudOf(x, y, color.value), ElementText);
    }
  }

  lemma RenderRowStep(row: seq<Cell>, y: nat, x: nat)
    requires x < |row|
    ensures Render(RowElements(row, y, x + 1)) ==
            Render(RowElements(row, y, x)) + Render(CellElements(x, y, row[x]))
  {
    RenderAppend(RowElements(row, y, x), CellElements(x, y, row[x]));
  }

  lemma RenderRowsStep(m: Matrix, y: nat)
    requires y < |m|
    ensures Render([Background] + RowsElements(m, y + 1)) ==
            Render([Background] + RowsElements(m, y)) + Render(RowElements(m[y], y, |m[y]|))
  {
    assert [Background] + RowsElements(m, y + 1) ==
           [Background] + RowsElements(m, y) + RowElements(m[y], y, |m[y]|);
    RenderAppend([Background] + RowsElements(m, y), RowElements(m[y], y, |m[y]|));
  }

  /** One pass of the inner loop extends the rendered prefix of the row by one cell. */
  lemma AppendRowStep(svgContent: string, before: string, after: string, row: seq<Cell>, y: nat, x: nat)
    requires x < |row|
    requires before == svgContent + Render(RowElements(row, y, x))
    requires after == before + Render(CellElements(x, y, row[x]))
    ensures after == svgContent + Render(RowElements(row, y, x + 1))
  {
    RenderRowStep(row, y, x);
  }

  /** The body of the outer `forEach`: the cells of row y, left to right. */
  method AppendRow(svgContent: string, row: seq<Cell>, y: nat) returns (out: string)
    ensures out == svgContent + Render(RowElements(row, y, |row|))
  {
    out := svgContent;
    var x := 0;
    assert out == svgContent + Render(RowElements(row, y, 0));
    while x < |row|
      invariant 0 <= x <= |row|
      invariant out == svgContent + Render(RowElements(row, y, x))
    {
      var next := AppendCell(out, x, y, row[x]);
      AppendRowStep(svgContent, out, next, row, y, x);
      out := next;
      x := x + 1;
    }
  }

  /** How the export ends. */
  datatype ExportStatus =
    | NoDesign           // no design data: the handler returns at once
    | Exported(svg: string)
    | Failed             // the handler threw and reported an error

  /** `exportAsSVG`'s string building: reading `pixelData[0].length` of an empty
      matrix throws, which the handler reports as a failed export. */
  method ExportAsSvg(designData: Option<Matrix>) returns (status: ExportStatus)
    ensures designData.None? ==> status == NoDesign
    ensures designData.Some? && |designData.value| == 0 ==> status == Failed
    ensures designData.Some? && |designData.value| > 0 ==> status == Exported(SvgDocument(designData.value))
  {
    if designData.None? {
      return NoDesign;
    }
    var pixelData := designData.value;
    if |pixelData| == 0 {
      return Failed;
    }
    var height := |pixelData|;
    var width := |pixelData[0]|;
    var svgContent := Header(width * CellSize, height * CellSize);
    svgContent := svgContent + ElementText(Background);
    ghost var head := Header(width * CellSize, height * CellSize);
    ConcatMapSingle(Background, ElementText);
    assert [Background] + RowsElements(pixelData, 0) == [Background];
    var y := 0;
    while y < |pixelData|
      invariant 0 <= y <= |pixelData|
      invariant svgContent == head + Render([Background] + RowsElements(pixelData, y))
    {
      RenderRowsStep(pixelData, y);
      svgContent := AppendRow(svgContent, pixelData[y], y);
      y := y + 1;
    }
    svgContent := svgContent + Footer;
    return Exported(svgContent);
  }

  // ---------------------------------------------------------------------------
  // Properties of the document

  /** Number of coloured cells among cells 0 .. k-1 of a row. */
  function RowFilledCount(row: seq<Cell>, k: nat): nat
    requires k <= |row|
  {
    if k == 0 then 0 else RowFilledCount(row, k - 1) + (if Filled(row[k - 1]) then 1 else 0)
  }

  /** Number of coloured cells in rows 0 .. n-1. */
  function FilledCount(m: Matrix, n: nat): nat
    requires n <= |m|
  {
    if n == 0 then 0 else FilledCount(m, n - 1) + RowFilledCount(m[n - 1], |m[n - 1]|)
  }

  lemma {:induction false} RowElementsCount(row: seq<Cell>, y: nat, k: nat)
    requires k <= |row|
    ensures |RowElements(row, y, k)| == 2 * RowFilledCount(row, k)
  {
    if k > 0 {
      RowElementsCount(row, y, k - 1);
    }
  }

  lemma {:induction false} RowsElementsCount(m: Matrix, n: nat)
    requires n <= |m|
    ensures |RowsElements(m, n)| == 2 * FilledCount(m, n)
  {
    if n > 0 {
      RowsElementsCount(m, n - 1);
      RowElementsCount(m[n - 1], n - 1, |m[n - 1]|);
    }
  }

  /** The document is the header sized cols·24 × rows·24 (cols from row 0),
      then the white background, then two elements per coloured cell, then
      `</svg>`; null and "" cells emit nothing. */
  lemma DocumentLayout(m: Matrix)
    requires |m| > 0
    ensures var es := Elements(m);
            |es| == 1 + 2 * FilledCount(m, |m|) && es[0] == Background &&
            SvgDocument(m) == Header(|m[0]| * 24, |m| * 24) + ElementText(Background) +
                              Render(es[1..]) + "</svg>"
  {
    RowsElementsCount(m, |m|);
    var es := Elements(m);
    RenderAppend([Background], es[1..]);
    assert [Background] + es[1..] == es;
    assert [Background][..0] == [];
  }

  /** Coloured cells of rows before y and of row y before x. */
  function FilledBefore(m: Matrix, y: nat, x: nat): nat
    requires y < |m| && x <= |m[y]|
  {
    FilledCount(m, y) + RowFilledCount(m[y], x)
  }

  lemma {:induction false} RowElementsPrefix(row: seq<Cell>, y: nat, k: nat, k': nat)
    requires k <= k' <= |row|
    ensures RowElements(row, y, k) <= RowElements(row, y, k')
  {
    if k < k' {
      RowElementsPrefix(row, y, k, k' - 1);
    }
  }

  lemma {:induction false} RowsElementsPrefix(m: Matrix, n: nat, n': nat)
    requires n <= n' <= |m|
    ensures RowsElements(m, n) <= RowsElements(m, n')
  {
    if n < n' {
      RowsElementsPrefix(m, n, n' - 1);
    }
  }

  /** The elements emitted up to and including cell (x, y) start the body. */
  lemma CellPrefix(m: Matrix, y: nat, x: nat)
    requires y < |m| && x < |m[y]|
    ensures RowsElements(m, y) + RowElements(m[y], y, x) + CellElements(x, y, m[y][x]) <= RowsElements(m, |m|)
  {
    RowElementsPrefix(m[y], y, x + 1, |m[y]|);
    RowsElementsPrefix(m, y + 1, |m|);
    assert RowElements(m[y], y, x + 1) == RowElements(m[y], y, x) + CellElements(x, y, m[y][x]);
    assert RowsElements(m, y + 1) == RowsElements(m, y) + RowElements(m[y], y, |m[y]|);
  }

  /** Each coloured cell (x, y, c) emits a block at (24x, 24y) of size 24 filled
      c, immediately followed by a stud at (24x+12, 24y+12) of radius 6 filled c,
      at position 1 + 2·(number of coloured cells before it in row-major order). */
  lemma CellEmitted(m: Matrix, y: nat, x: nat)
    requires y < |m| && x < |m[y]| && Filled(m[y][x])
    ensures var es := Elements(m);
            var k := 1 + 2 * FilledBefore(m, y, x);
            k + 1 < |es| &&
            es[k] == Block(x * 24, y * 24, 24, m[y][x].value) &&
            es[k + 1] == Stud(x * 24 + 12, y * 24 + 12, 6, m[y][x].value)
  {
    CellPrefix(m, y, x);
    RowsElementsCount(m, y);
    RowElementsCount(m[y], y, x);
    var pre := RowsElements(m, y) + RowElements(m[y], y, x);
    var whole := RowsElements(m, |m|);
    assert |pre| == 2 * FilledBefore(m, y, x);
    assert whole[|pre|] == (pre + CellElements(x, y, m[y][x]))[|pre|];
    assert whole[|pre| + 1] == (pre + CellElements(x, y, m[y][x]))[|pre| + 1];
  }

  lemma {:induction false} RowFilledCountMono(row: seq<Cell>, k: nat, k': nat)
    requires k <= k' <= |row|
    ensures RowFilledCount(row, k) <= RowFilledCount(row, k')
  {
    if k < k' {
      RowFilledCountMono(row, k, k' - 1);
    }
  }

  lemma {:induction false} FilledCountMono(m: Matrix, n: nat, n': nat)
    requires n <= n' <= |m|
    ensures FilledCount(m, n) <= FilledCount(m, n')
  {
    if n < n' {
      FilledCountMono(m, n, n' - 1);
    }
  }

  /** Cells are emitted in row-major order: a coloured cell that comes earlier,
      by row and then by column, has its elements earlier in the document. */
  lemma RowMajorOrder(m: Matrix, y1: nat, x1: nat, y2: nat, x2: nat)
    requires y1 < |m| && x1 < |m[y1]| && y2 < |m| && x2 < |m[y2]|
    requires Filled(m[y1][x1])
    requires y1 < y2 || (y1 == y2 && x1 < x2)
    ensures FilledBefore(m, y1, x1) < FilledBefore(m, y2, x2)
  {
    if y1 == y2 {
      RowFilledCountMono(m[y1], x1 + 1, x2);
    } else {
      RowFilledCountMono(m[y1], x1 + 1, |m[y1]|);
      FilledCountMono(m, y1 + 1, y2);
    }
  }

  /** Conversely, every element of the body after the background is the block or
      the stud of some coloured cell. */
  lemma {:induction false} RowElementsFromCells(row: seq<Cell>, y: nat, k: nat, e: Element)
    requires k <= |row| && e in RowElements(row, y, k)
    ensures exists x :: 0 <= x < k && Filled(row[x]) &&
                        (e == BlockOf(x, y, row[x].value) || e == StudOf(x, y, row[x].value))
  {
    if e !in RowElements(row, y, k - 1) {
      assert e in CellElements(k - 1, y, row[k - 1]);
    } else {
      RowElementsFromCells(row, y, k - 1, e);
      var x :| 0 <= x < k - 1 && Filled(row[x]) &&
               (e == BlockOf(x, y, row[x].value) || e == StudOf(x, y, row[x].value));
    }
  }

  lemma {:induction false} RowsElementsFromCells(m: Matrix, n: nat, e: Element)
    requires n <= |m| && e in RowsElements(m, n)
    ensures exists y, x :: 0 <= y < n && 0 <= x < |m[y]| && Filled(m[y][x]) &&
                           (e == BlockOf(x, y, m[y][x].value) || e == StudOf(x, y, m[y][x].value))
  {
    if e !in RowsElements(m, n - 1) {
      RowElementsFromCells(m[n - 1], n - 1, |m[n - 1]|, e);
      var x :| 0 <= x < |m[n - 1]| && Filled(m[n - 1][x]) &&
               (e == BlockOf(x, n - 1, m[n - 1][x].value) || e == StudOf(x, n - 1, m[n - 1][x].value));
    } else {
      RowsElementsFromCells(m, n - 1, e);
      var y, x :| 0 <= y < n - 1 && 0 <= x < |m[y]| && Filled(m[y][x]) &&
                  (e == BlockOf(x, y, m[y][x].value) || e == StudOf(x, y, m[y][x].value));
    }
  }

  lemma ElementsFromCells(m: Matrix, k: nat)
    requires 1 <= k < |Elements(m)|
    ensures exists y, x :: 0 <= y < |m| && 0 <= x < |m[y]| && Filled(m[y][x]) &&
                           (Elements(m)[k] == BlockOf(x, y, m[y][x].value) ||
                            Elements(m)[k] == StudOf(x, y, m[y][x].value))
  {
    assert Elements(m)[k] in RowsElements(m, |m|);
    RowsElementsFromCells(m, |m|, Elements(m)[k]);
  }

  // ---------------------------------------------------------------------------
  // Preview size

  /** `previewWidth`: row 0's length times 24, or 0 without design data or rows. */
  function PreviewWidth(designData: Option<Matrix>): nat {
    if designData.Some? && |designData.value| > 0 then |designData.value[0]| * CellSize else 0
  }

  /** `previewHeight`: the number of rows times 24, or 0 without design data. */
  function PreviewHeight(designData: Option<Matrix>): nat {
    if designData.Some? then |designData.value| * CellSize else 0
  }

  /** The preview has the size the SVG export declares, and is empty without
      design data. */
  lemma PreviewMatchesExport(designData: Option<Matrix>)
    ensures designData.None? ==> PreviewWidth(designData) == 0 && PreviewHeight(designData) == 0
    ensures designData.Some? && |designData.value| > 0 ==>
            var m := designData.value;
            SvgDocument(m) == Header(PreviewWidth(designData), PreviewHeight(designData)) +
                              Render(Elements(m)) + Footer
  {
  }
}
