/** The legacy piece-placement engine of the builder page: a list of rectangular
    pieces on a 32×32 grid, the rules that accept or reject a new piece, and the
    small session state (panel open, placing, selected size/type/colour). */
module Placement {
  import opened Wrappers
  import opened Types

  /** Half-open overlap of the candidate rectangle [x, x+w) × [y, y+h) with piece `p`. */
  predicate Overlaps(x: int, y: int, s: Size, p: LegoPiece) {
    x < p.position.x + p.size.width && x + s.width > p.position.x &&
    y < p.position.y + p.size.height && y + s.height > p.position.y
  }

  /** The upper-edge bounds test of `addPiece`; the lower edges are not checked there. */
  predicate FitsBoard(x: int, y: int, s: Size) {
    !(x + s.width > BoardCells || y + s.height > BoardCells)
  }

  /** Some existing piece overlaps the candidate rectangle. */
  predicate HasCollision(pieces: seq<LegoPiece>, x: int, y: int, s: Size) {
    exists i :: 0 <= i < |pieces| && Overlaps(x, y, s, pieces[i])
  }

  /** The piece `addPiece` would create at (x, y). */
  function NewPiece(id: PieceId, kind: PieceType, s: Size, color: Color, x: int, y: int): LegoPiece {
    LegoPiece(id, kind, s, color, Position(x, y))
  }

  /** What `addPiece` does to the piece list: `None` when it returns early. */
  function TryPlace(pieces: seq<LegoPiece>, x: int, y: int, kind: PieceType, s: Size,
                    color: Color, id: PieceId): (r: Option<seq<LegoPiece>>)
    ensures r.Some? ==> |r.value| == |pieces| + 1 && r.value[..|pieces|] == pieces
  {
    if !FitsBoard(x, y, s) then None
    else if HasCollision(pieces, x, y, s) then None
    else Some(pieces + [NewPiece(id, kind, s, color, x, y)])
  }

  // ---------------------------------------------------------------------------
  // The board invariant

  /** The grid cell (cx, cy) lies under piece `p`. */
  predicate Covers(p: LegoPiece, cx: int, cy: int) {
    p.position.x <= cx < p.position.x + p.size.width &&
    p.position.y <= cy < p.position.y + p.size.height
  }

  /** Piece `p` has a positive size and lies inside [0, 32)². */
  predicate OnBoard(p: LegoPiece) {
    PositiveSize(p.size) &&
    0 <= p.position.x && p.position.x + p.size.width <= BoardCells &&
    0 <= p.position.y && p.position.y + p.size.height <= BoardCells
  }

  predicate PiecesOverlap(p: LegoPiece, q: LegoPiece) {
    Overlaps(p.position.x, p.position.y, p.size, q)
  }

  /** Every piece is on the board, no two pieces overlap and ids are distinct. */
  ghost predicate WellFormed(pieces: seq<LegoPiece>) {
    (forall i :: 0 <= i < |pieces| ==> OnBoard(pieces[i])) &&
    (forall i, j :: 0 <= i < j < |pieces| ==> !PiecesOverlap(pieces[i], pieces[j])) &&
    (forall i, j :: 0 <= i < j < |pieces| ==> pieces[i].id != pieces[j].id)
  }

  /** For positive sizes, the half-open overlap test holds exactly when the two
      rectangles share a grid cell. */
  lemma OverlapIffSharedCell(x: int, y: int, s: Size, p: LegoPiece)
    requires PositiveSize(s) && PositiveSize(p.size)
    ensures Overlaps(x, y, s, p) <==>
            exists cx, cy :: Covers(NewPiece(0, Plate, s, "", x, y), cx, cy) && Covers(p, cx, cy)
  {
    var q := NewPiece(0, Plate, s, "", x, y);
    if Overlaps(x, y, s, p) {
      var cx := if x < p.position.x then p.position.x else x;
      var cy := if y < p.position.y then p.position.y else y;
      assert Covers(q, cx, cy) && Covers(p, cx, cy);
    }
  }

  /** A rectangle that only touches a piece along an edge does not collide with it. */
  lemma EdgeAdjacentAccepted(x: int, y: int, s: Size, p: LegoPiece)
    requires x == p.position.x + p.size.width || x + s.width == p.position.x ||
             y == p.position.y + p.size.height || y + s.height == p.position.y
    ensures !Overlaps(x, y, s, p)
  {
  }

  /** `addPiece` leaves the board unchanged when the piece sticks out past the
      right or bottom edge. */
  lemma PlaceRejectsOutOfBounds(pieces: seq<LegoPiece>, x: int, y: int, kind: PieceType,
                                s: Size, color: Color, id: PieceId)
    requires x + s.width > BoardCells || y + s.height > BoardCells
    ensures TryPlace(pieces, x, y, kind, s, color, id) == None
  {
  }

  /** `addPiece` leaves the board unchanged when the piece overlaps the piece at index k. */
  lemma PlaceRejectsOverlap(pieces: seq<LegoPiece>, k: int, x: int, y: int, kind: PieceType,
                            s: Size, color: Color, id: PieceId)
    requires 0 <= k < |pieces| && Overlaps(x, y, s, pieces[k])
    ensures TryPlace(pieces, x, y, kind, s, color, id) == None
  {
    assert HasCollision(pieces, x, y, s);
  }

  /** A piece that fits and overlaps nothing is appended after the old pieces,
      which keep their order, with the selected type, size, colour and position. */
  lemma PlaceAppends(pieces: seq<LegoPiece>, x: int, y: int, kind: PieceType,
                     s: Size, color: Color, id: PieceId)
    requires FitsBoard(x, y, s)
    requires forall i :: 0 <= i < |pieces| ==> !Overlaps(x, y, s, pieces[i])
    ensures TryPlace(pieces, x, y, kind, s, color, id).Some?
    ensures var r := TryPlace(pieces, x, y, kind, s, color, id).value;
            r[..|pieces|] == pieces && r[|pieces|] == LegoPiece(id, kind, s, color, Position(x, y))
  {
  }

  /** A placement with non-negative coordinates, a positive size and a fresh id
      keeps the board well formed. */
  lemma PlaceKeepsWellFormed(pieces: seq<LegoPiece>, x: int, y: int, kind: PieceType,
                             s: Size, color: Color, id: PieceId)
    requires WellFormed(pieces)
    requires 0 <= x && 0 <= y && PositiveSize(s)
    requires forall i :: 0 <= i < |pieces| ==> pieces[i].id != id
    ensures TryPlace(pieces, x, y, kind, s, color, id).Some? ==>
            WellFormed(TryPlace(pieces, x, y, kind, s, color, id).value)
  {
    var r := TryPlace(pieces, x, y, kind, s, color, id);
    if r.Some? {
      var n := |pieces|;
      var q := r.value;
      assert q == pieces + [NewPiece(id, kind, s, color, x, y)];
      forall i, j | 0 <= i < j < |q|
        ensures !PiecesOverlap(q[i], q[j])
      {
        if j == n {
          assert !Overlaps(x, y, s, pieces[i]);
        }
      }
    }
  }

  /** One click on the board as the placement engine sees it. */
  datatype Request = Request(x: int, y: int, kind: PieceType, size: Size, color: Color)

  /** The board built from an empty one by applying `addPiece` to each request in
      turn; request k draws the id k. */
  function Build(reqs: seq<Request>): seq<LegoPiece> {
    if reqs == [] then []
    else
      var prev := Build(reqs[..|reqs| - 1]);
      var q := reqs[|reqs| - 1];
      TryPlace(prev, q.x, q.y, q.kind, q.size, q.color, |reqs| - 1).GetOr(prev)
  }

  /** Starting from the empty board, every board built by placements with
      non-negative coordinates and positive sizes keeps all pieces inside
      [0, 32)² and pairwise non-overlapping. */
  lemma {:induction false} BuildWellFormed(reqs: seq<Request>)
    requires forall k :: 0 <= k < |reqs| ==> 0 <= reqs[k].x && 0 <= reqs[k].y && PositiveSize(reqs[k].size)
    ensures WellFormed(Build(reqs))
    ensures forall i :: 0 <= i < |Build(reqs)| ==> Build(reqs)[i].id < |reqs|
  {
    if reqs != [] {
      var init := reqs[..|reqs| - 1];
      BuildWellFormed(init);
      var prev := Build(init);
      var q := reqs[|reqs| - 1];
      PlaceKeepsWellFormed(prev, q.x, q.y, q.kind, q.size, q.color, |reqs| - 1);
    }
  }

  /** The pixel offset → grid cell mapping of a click: `Math.floor(offset / 24)`
      (Dafny's division by a positive divisor rounds down). */
  function GridCell(offset: int): (c: int)
    ensures c * CellPixels <= offset < c * CellPixels + CellPixels
  {
    offset / CellPixels
  }

  /** The cell-coordinate guard of a board click. */
  predicate OnGrid(x: int, y: int) {
    0 <= x < BoardCells && 0 <= y < BoardCells
  }

  /** The state of the builder page. */
  class Session {
    var pieces: seq<LegoPiece>
    var showPiecesPanel: bool
    var isPlacingPiece: bool
    var selectedType: PieceType
    var selectedColor: Color
    var selectedSize: Size
    /** The next fresh piece id (stands for the timestamp-based id). */
    var nextId: PieceId

    /** The board is well formed, every id in use is below `nextId`, and the
        selected size is one the panel offers. */
    ghost predicate Valid()
      reads this
    {
      WellFormed(pieces) &&
      (forall i :: 0 <= i < |pieces| ==> pieces[i].id < nextId) &&
      selectedSize in PieceSizes
    }

    constructor ()
      ensures Valid()
      ensures pieces == [] && !showPiecesPanel && !isPlacingPiece
      ensures selectedType == Plate && selectedColor == "#FF0000" && selectedSize == Size(1, 1)
    {
      pieces := [];
      showPiecesPanel := false;
      isPlacingPiece := false;
      selectedType := Plate;
      selectedColor := DefaultColor;
      selectedSize := DefaultSize;
      nextId := 0;
    }

    /** Empties the board whatever it held. */
    method ClearBoard()
      requires Valid()
      modifies this
      ensures Valid()
      ensures pieces == []
      ensures showPiecesPanel == old(showPiecesPanel) && isPlacingPiece == old(isPlacingPiece)
      ensures selectedType == old(selectedType) && selectedColor == old(selectedColor)
      ensures selectedSize == old(selectedSize) && nextId == old(nextId)
    {
      pieces := [];
    }

    /** Flips the panel flag; opening the panel cancels placement. */
    method TogglePiecesPanel()
      requires Valid()
      modifies this
      ensures Valid()
      ensures showPiecesPanel == !old(showPiecesPanel)
      ensures isPlacingPiece == (old(isPlacingPiece) && !showPiecesPanel)
      ensures pieces == old(pieces) && nextId == old(nextId)
      ensures selectedType == old(selectedType) && selectedColor == old(selectedColor)
      ensures selectedSize == old(selectedSize)
    {
      var wasOpen := showPiecesPanel;
      showPiecesPanel := !wasOpen;
      if !wasOpen {
        isPlacingPiece := false;
      }
    }

    /** Choosing a size in the panel selects it, starts placing and closes the panel. */
    method HandlePieceSelect(size: Size)
      requires Valid()
      requires size in PieceSizes
      modifies this
      ensures Valid()
      ensures selectedSize == size && isPlacingPiece && !showPiecesPanel
      ensures pieces == old(pieces) && nextId == old(nextId)
      ensures selectedType == old(selectedType) && selectedColor == old(selectedColor)
    {
      selectedSize := size;
      isPlacingPiece := true;
      showPiecesPanel := false;
    }

    /** The panel's type buttons. */
    method SetSelectedType(kind: PieceType)
      requires Valid()
      modifies this
      ensures Valid()
      ensures selectedType == kind
      ensures pieces == old(pieces) && nextId == old(nextId) && selectedSize == old(selectedSize)
      ensures selectedColor == old(selectedColor)
      ensures showPiecesPanel == old(showPiecesPanel) && isPlacingPiece == old(isPlacingPiece)
    {
      selectedType := kind;
    }

    /** The panel's colour swatches. */
    method SetSelectedColor(color: Color)
      requires Valid()
      modifies this
      ensures Valid()
      ensures selectedColor == color
      ensures pieces == old(pieces) && nextId == old(nextId) && selectedSize == old(selectedSize)
      ensures selectedType == old(selectedType)
      ensures showPiecesPanel == old(showPiecesPanel) && isPlacingPiece == old(isPlacingPiece)
    {
      selectedColor := color;
    }

    /** Places a piece of the selected type, size and colour at (x, y), or does
        nothing when it sticks out or collides. It does not consult
        `isPlacingPiece`; a success resets it. The board stays well formed for
        non-negative coordinates, which its one caller guarantees. */
    method AddPiece(x: int, y: int)
      requires Valid()
      modifies this
      ensures var r := TryPlace(old(pieces), x, y, old(selectedType), old(selectedSize),
                                old(selectedColor), old(nextId));
              if r.Some? then
                pieces == r.value && !isPlacingPiece && nextId == old(nextId) + 1
              else
                pieces == old(pieces) && isPlacingPiece == old(isPlacingPiece) && nextId == old(nextId)
      ensures 0 <= x && 0 <= y ==> Valid()
      ensures showPiecesPanel == old(showPiecesPanel)
      ensures selectedType == old(selectedType) && selectedColor == old(selectedColor)
      ensures selectedSize == old(selectedSize)
    {
      var r := TryPlace(pieces, x, y, selectedType, selectedSize, selectedColor, nextId);
      if r.Some? {
        assert PositiveSize(selectedSize) by {
          var k :| 0 <= k < |PieceSizes| && PieceSizes[k] == selectedSize;
          PieceSizesBounded(k);
        }
        if 0 <= x && 0 <= y {
          PlaceKeepsWellFormed(pieces, x, y, selectedType, selectedSize, selectedColor, nextId);
        }
        pieces := r.value;
        nextId := nextId + 1;
        isPlacingPiece := false;
      }
    }

    /** A click at pixel offset (offsetX, offsetY) from the board's corner: ignored
        while the panel is open, otherwise mapped to a grid cell and, when that
        cell is on the grid, handed to `AddPiece`. */
    method HandleBoardClick(offsetX: int, offsetY: int)
      requires Valid()
      modifies this
      ensures Valid()
      ensures var x, y := GridCell(offsetX), GridCell(offsetY);
              if old(showPiecesPanel) || !OnGrid(x, y) then
                pieces == old(pieces) && isPlacingPiece == old(isPlacingPiece) && nextId == old(nextId)
              else
                var r := TryPlace(old(pieces), x, y, old(selectedType), old(selectedSize),
                                  old(selectedColor), old(nextId));
                if r.Some? then
                  pieces == r.value && !isPlacingPiece && nextId == old(nextId) + 1
                else
                  pieces == old(pieces) && isPlacingPiece == old(isPlacingPiece) && nextId == old(nextId)
      ensures showPiecesPanel == old(showPiecesPanel)
      ensures selectedType == old(selectedType) && selectedColor == old(selectedColor)
      ensures selectedSize == old(selectedSize)
    {
      if showPiecesPanel {
        return;
      }
      var x := GridCell(offsetX);
      var y := GridCell(offsetY);
      if OnGrid(x, y) {
        AddPiece(x, y);
      }
    }
  }
}
