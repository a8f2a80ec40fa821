/** Piece data model of the legacy placement engine: kinds, sizes, colours and
    the two constant tables the builder offers. */
module Types {

  /** "Plate" pieces carry studs, "Tile" pieces are smooth. */
  datatype PieceType = Plate | Tile

  /** A piece size `[width, height]` in grid cells. */
  datatype Size = Size(width: int, height: int)

  /** A grid coordinate `[x, y]`. */
  datatype Position = Position(x: int, y: int)

  /** Piece identifiers are opaque; a fresh one is drawn for every piece. */
  type PieceId = nat

  type Color = string

  datatype LegoPiece = LegoPiece(
    id: PieceId,
    kind: PieceType,
    size: Size,
    color: Color,
    position: Position)

  /** The side length of the square board, in cells. */
  const BoardCells: int := 32

  /** Side length of one grid cell, in pixels. */
  const CellPixels: int := 24

  /** The six sizes the pieces panel offers, in the order it lists them. */
  const PieceSizes: seq<Size> :=
    [Size(1, 1), Size(1, 2), Size(1, 3), Size(2, 1), Size(2, 2), Size(2, 3)]

  /** The eight colours the pieces panel offers. */
  const Colors: seq<Color> :=
    ["#333333", "#FFFFFF", "#FF0000", "#FF6600", "#FFCC00", "#00CC00", "#0066FF", "#9900FF"]

  const DefaultSize: Size := Size(1, 1)

  /** The session starts with `COLORS[2]`. */
  const DefaultColor: Color := Colors[2]

  predicate PositiveSize(s: Size) {
    s.width > 0 && s.height > 0
  }

  /** Every offered size is positive, at most two cells wide and three high. */
  lemma PieceSizesBounded(i: int)
    requires 0 <= i < |PieceSizes|
    ensures PositiveSize(PieceSizes[i])
    ensures PieceSizes[i].width <= 2 && PieceSizes[i].height <= 3
  {
  }

  /** The size table has six pairwise-distinct entries. */
  lemma PieceSizesDistinct(i: int, j: int)
    requires 0 <= i < |PieceSizes| && 0 <= j < |PieceSizes| && i != j
    ensures |PieceSizes| == 6
    ensures PieceSizes[i] != PieceSizes[j]
  {
  }

  /** The session's initial size is one the panel offers. */
  lemma DefaultSizeOffered()
    ensures DefaultSize in PieceSizes && PositiveSize(DefaultSize)
  {
  }

  /** The colour table has eight pairwise-distinct entries and the default is red. */
  lemma ColorsDistinct(i: int, j: int)
    requires 0 <= i < |Colors| && 0 <= j < |Colors| && i != j
    ensures |Colors| == 8
    ensures Colors[i] != Colors[j]
    ensures DefaultColor == "#FF0000"
  {
  }
}
