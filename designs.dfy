/** The design records shared by the gallery, the exporter and the persistence
    layer: pixel matrices of optional colours, export bounds, and a design. */
module Designs {
  import opened Wrappers

  /** One pixel of a design: a colour string, or null for an empty cell. */
  type Cell = Option<string>

  /** A design's pixel matrix, row-major (`matrix[y][x]`). */
  type Matrix = seq<seq<Cell>>

  /** JavaScript truthiness of a cell (`if (cell)`): null and "" are both empty. */
  predicate Filled(c: Cell) {
    c.Some? && c.value != ""
  }

  /** Every row has the length of row 0. */
  predicate Rectangular(m: Matrix) {
    forall y :: 0 <= y < |m| ==> |m[y]| == |m[0]|
  }

  /** The bounding box saved alongside a design. */
  datatype Bounds = Bounds(minX: int, minY: int, maxX: int, maxY: int, width: int, height: int)

  /** A `pixel_data` value as read back from storage: a matrix, or something
      that is not an array at all. */
  datatype PixelValue = Grid(rows: Matrix) | NotAnArray

  /** A design as the gallery sees it. */
  datatype Design = Design(
    id: string,
    name: string,
    creator: string,
    image: Option<string>,
    pixelData: PixelValue,
    colorPalette: seq<string>,
    bounds: Option<Bounds>,
    createdAt: string)
}
