# 2D LEGO builder — a Dafny model of its core logic

This project models the logic of a browser-based 2D LEGO builder and proves properties about it. The builder lets you place rectangular plates and tiles on a 32×32 grid. It can export a pixel design as SVG, save designs to a `designs` table, and show saved designs in a gallery, where each card trims its design to the coloured area.

The modules follow the program's structure:

| module | file | models |
|---|---|---|
| `Wrappers` | wrappers.dfy | `Option`, standing for JavaScript's `null` or an absent key |
| `Types` | types.dfy | piece kinds, sizes and positions, `PIECE_SIZES`, `COLORS` |
| `Placement` | placement.dfy | the builder page: the `addPiece` rules, and the page state as the class `Session` |
| `Designs` | designs.dfy | the pixel matrix (rows of optional colour strings), bounds, the gallery's `Design` record |
| `GalleryTrim` | trim.dfy | the gallery card's trimming pass (bounds, padding, cut-out) and its state as the class `GalleryItemState` |
| `SvgExport` | svg.dfy | the SVG string built by the export dialog, and the preview dimensions |
| `Persistence` | persistence.dfy | the inserted row, the stored-row mappers, and how save and fetch replies are classified |
| `GalleryLoad` | gallery.dfy | per-design pixel normalisation, the loader state as the class `Loader`, and view selection |
| `Studs` | studs.dfy | the stud layout of a placed piece and its pixel footprint |

Modelling conventions:

- A cell is `Option<string>`. As in JavaScript's `if (cell)`, a cell is coloured exactly when it is `Some(c)` with `c != ""`.
- Reading past the end of a row (`pixelData[y][x]` gives `undefined`) is modelled as `None`.
- Dafny's `/` by a positive divisor rounds down, like `Math.floor`. The click-to-cell mapping and the stud rows use it directly.
- Every number in the SVG document is a non-negative integer. Cell size is 24, stud centre offset 12, radius 6. `NatToString` prints such numbers as JavaScript does.
- Piece ids are a counter, `Session.nextId`. It stands for `piece-${Date.now()}`: every new piece gets an id no other piece has.
- The database, the network and alerts are not modelled. Each database reply (`{ data, error }`, or a thrown exception) is a parameter, and each alert is part of the returned report.

The model follows the code on three points where its behaviour differs from what one might expect:

- `addPiece` checks only the right and bottom edges (`x + width > 32 || y + height > 32`).
- An SVG export of an empty matrix fails, because `pixelData[0].length` throws.
- `fetchDesigns` reports a reply with neither data nor an error as a caught exception, because `data.map` throws.

## Model

| member | source | states |
|---|---|---|
| Types.PieceSizesBounded | app/types.ts:19-26 | every offered size is positive, at most 2 wide and 3 high |
| Types.PieceSizesDistinct | app/types.ts:19-26 | six sizes, pairwise distinct |
| Types.DefaultSizeOffered | app/page.tsx:14 | the initial size `[1, 1]` is one the panel offers and is positive |
| Types.ColorsDistinct | app/types.ts:29-38 | eight pairwise-distinct colours; the default `COLORS[2]` is `#FF0000` |
| Placement.TryPlace | app/page.tsx:60-99 | when a placement succeeds, the new list is one piece longer and the old pieces are its unchanged prefix |
| Placement.PlaceRejectsOutOfBounds | app/page.tsx:62-65 | `x + width > 32` or `y + height > 32` leaves the board unchanged |
| Placement.PlaceRejectsOverlap | app/page.tsx:68-83 | overlapping any existing piece, under the half-open test, leaves the board unchanged |
| Placement.EdgeAdjacentAccepted | app/page.tsx:73-78 | a rectangle touching a piece only along an edge does not collide with it |
| Placement.OverlapIffSharedCell | app/page.tsx:73-78 | for positive sizes, the overlap test holds exactly when the two rectangles share a grid cell |
| Placement.PlaceAppends | app/page.tsx:85-95 | a fitting, non-colliding piece is appended after the old pieces in order, with the selected type, size and colour and position (x, y) |
| Placement.PlaceKeepsWellFormed | app/page.tsx:62-95 | placing with x, y ≥ 0, a positive size and a fresh id keeps every piece inside [0,32)², pieces pairwise non-overlapping and ids distinct |
| Placement.BuildWellFormed | app/page.tsx:60-113 | any sequence of placements from the empty board with x, y ≥ 0 and positive sizes yields a well-formed board |
| Placement.GridCell | app/page.tsx:106-107 | the cell's pixel span `[24c, 24c + 24)` contains the offset, which is `Math.floor(offset / 24)` |
| Placement.Session.constructor | app/page.tsx:10-15 | an empty board, panel closed, not placing, Plate, red, 1×1 |
| Placement.Session.ClearBoard | app/page.tsx:39-41 | the board is empty whatever it held; nothing else changes |
| Placement.Session.TogglePiecesPanel | app/page.tsx:44-50 | the panel flag flips; opening the panel cancels placement, closing it leaves placement as it was |
| Placement.Session.HandlePieceSelect | app/page.tsx:53-57 | the size is selected, placement starts, and the panel closes |
| Placement.Session.SetSelectedType | app/page.tsx:135-136 | only the selected type changes |
| Placement.Session.SetSelectedColor | app/page.tsx:137-138 | only the selected colour changes |
| Placement.Session.AddPiece | app/page.tsx:60-99 | the board follows `TryPlace` on the selected type, size and colour. Success clears `isPlacingPiece`; a rejection leaves it unchanged; it is never consulted. The invariant holds for x, y ≥ 0 |
| Placement.Session.HandleBoardClick | app/page.tsx:102-113 | ignored while the panel is open; otherwise the offsets map to a cell, and placement happens only when the cell is on the 32×32 grid; the invariant is kept |
| GalleryTrim.FilledBoundsTight | app/components/Gallery/GalleryItem.tsx:26-44 | no bounds exactly when no cell is coloured; otherwise every coloured cell lies inside the bounds and each bound is attained by a coloured cell |
| GalleryTrim.TightBoxUnique | app/components/Gallery/GalleryItem.tsx:32-41 | the tightest box is unique |
| GalleryTrim.FindBounds | app/components/Gallery/GalleryItem.tsx:26-41 | the nested scan computes exactly the bounds specified by `FilledBounds` |
| GalleryTrim.Pad | app/components/Gallery/GalleryItem.tsx:46-49 | after padding, `0 ≤ minX`, `maxX ≤ cols−1` (cols = length of row 0), `0 ≤ minY`, `maxY ≤ rows−1`; each edge moves out by at most one cell |
| GalleryTrim.ExtractBox | app/components/Gallery/GalleryItem.tsx:52-59 | the nested `push` loops build exactly the cut-out `Extract` |
| GalleryTrim.TrimPixelData | app/components/Gallery/GalleryItem.tsx:24-64 | the trimming pass computes `Trim`: the padded cut-out, or the input itself when no cell is coloured |
| GalleryTrim.ExtractShape | app/components/Gallery/GalleryItem.tsx:52-59 | on a rectangular matrix, for a box inside it, the cut-out has `maxY−minY+1` rows of `maxX−minX+1` cells, and `trimmed[i][j] = pixelData[minY+i][minX+j]` |
| GalleryTrim.PaddedBoxInside | app/components/Gallery/GalleryItem.tsx:44-49 | on a rectangular matrix with a coloured cell, the tight box lies inside the matrix and the padded box contains it |
| GalleryTrim.TrimShape | app/components/Gallery/GalleryItem.tsx:44-59 | on a rectangular matrix with a coloured cell, the trimmed matrix has the padded box's shape and the input's cells |
| GalleryTrim.TrimAllEmpty | app/components/Gallery/GalleryItem.tsx:61-64 | a matrix with no coloured cell is returned unchanged |
| GalleryTrim.PaddedBoxHoldsFilled | app/components/Gallery/GalleryItem.tsx:44-49 | on a rectangular matrix with a coloured cell, every coloured cell lies inside the padded box |
| GalleryTrim.RaggedPaddingMissesCell | app/components/Gallery/GalleryItem.tsx:44-49 | on the ragged matrix `[[null], [null, "r"]]` the tight box is the single cell (1, 1), and the padded box, clamped to row 0's length, leaves it out |
| GalleryTrim.ExtractKeepsColors | app/components/Gallery/GalleryItem.tsx:52-59 | on a rectangular matrix, for a box inside it that holds every coloured cell, the cut-out keeps the multiset of colours |
| GalleryTrim.TrimKeepsColors | app/components/Gallery/GalleryItem.tsx:32-59 | no coloured cell is lost: the trimmed matrix has the same multiset of colours as the input |
| GalleryTrim.ExtractShiftsTightBox | app/components/Gallery/GalleryItem.tsx:52-59 | on a rectangular matrix, for a box inside it that contains the tight box, the cut-out's tight box is the original one moved by the box's corner |
| GalleryTrim.ExtractWhole | app/components/Gallery/GalleryItem.tsx:52-59 | on a rectangular non-empty matrix, the box covering it whole cuts out the matrix itself |
| GalleryTrim.TrimIdempotent | app/components/Gallery/GalleryItem.tsx:44-59 | trimming an already trimmed rectangular matrix returns it unchanged |
| GalleryTrim.GalleryItemState.constructor | app/components/Gallery/GalleryItem.tsx:13-14 | the card starts with `#CCCCCC` and no trimmed data |
| GalleryTrim.GalleryItemState.ApplyDesign | app/components/Gallery/GalleryItem.tsx:16-66 | the dominant colour becomes the first palette entry when the palette is non-empty, else stays; a non-empty matrix is trimmed, an empty one leaves the trimmed data as it was |
| SvgExport.AppendCell | app/components/ExportDesignDialog.tsx:168-178 | a coloured cell appends its block and then its stud; a null or "" cell appends nothing |
| SvgExport.AppendRow | app/components/ExportDesignDialog.tsx:167-179 | the inner loop appends the rendering of the row's cells, left to right |
| SvgExport.ExportAsSvg | app/components/ExportDesignDialog.tsx:148-182 | no design data returns at once; an empty matrix fails; otherwise the string built is `SvgDocument` |
| SvgExport.DocumentLayout | app/components/ExportDesignDialog.tsx:155-182 | the header is sized `cols*24` × `rows*24` with viewBox `0 0 W H`; the background comes next; there are 1 + 2 × (coloured cells) elements; the document ends with `</svg>` |
| SvgExport.CellEmitted | app/components/ExportDesignDialog.tsx:168-178 | each coloured cell (x, y, c) emits a rect at (24x, 24y) of size 24 filled c, immediately followed by a circle at (24x+12, 24y+12) with r = 6 filled c |
| SvgExport.RowMajorOrder | app/components/ExportDesignDialog.tsx:166-167 | cells are emitted y outer, x inner |
| SvgExport.ElementsFromCells | app/components/ExportDesignDialog.tsx:166-180 | every element after the background is the block or the stud of a coloured cell |
| SvgExport.PreviewMatchesExport | app/components/ExportDesignDialog.tsx:34-35 | the preview is 0 × 0 without design data; otherwise it has the dimensions the SVG header declares |
| Persistence.InsertRowOf | app/services/supabaseService.ts:52-63 | the row copies `name` and `creator` and maps `pixelData`→`pixel_data` and `colorPalette`→`color_palette`. `bounds` is null when it is absent. There is an `image` key exactly when the image is non-empty |
| Persistence.PrepareInsert | app/services/supabaseService.ts:52-63 | building the object and then adding `image` in place yields `InsertRowOf` |
| Persistence.Store | app/services/supabaseService.ts:11-20 | the table row keeps the inserted name, creator, pixels, palette, bounds and image; a missing `image` is a null column; the database supplies `id` and `created_at` |
| Persistence.FromRow | app/services/supabaseService.ts:103-112 | every snake_case column maps back to its camelCase field, `created_at` to `createdAt` |
| Persistence.FromRows | app/services/supabaseService.ts:103-112 | one design per row, in the order of the reply |
| Persistence.RoundTrip | app/services/supabaseService.ts:52-112 | reading a saved row back returns the submitted name, creator, pixels, palette and bounds; the image survives exactly when it was non-empty |
| Persistence.SavedDesignListed | app/services/supabaseService.ts:89-112 | a saved design fetched in a list sits at its position with its id, creation time, name, creator, pixels, palette and bounds, and its image exactly when it was non-empty |
| Persistence.ContainsIff | app/services/supabaseService.ts:73 | `includes` holds exactly when the marker occurs at some offset |
| Persistence.SaveOutcome | app/services/supabaseService.ts:71-86 | `success: true` only without an error. The table-missing alert is raised exactly when the message contains `relation "designs" does not exist`; any other error raises `ErrorAlert` with the error's message |
| Persistence.ErrorAlertText | app/services/supabaseService.ts:76-77 | the alert for an error that does not name the missing table reads `Error saving design: ` followed by the message, or `Unknown error` when it is absent or empty |
| Persistence.MissingTableAlertIff | app/services/supabaseService.ts:73-74 | the table-missing alert is raised exactly when the message is non-empty and contains the marker at some offset |
| Persistence.FetchDesigns | app/services/supabaseService.ts:89-118 | success exactly when there is no error and there is data, with the rows mapped in order; an error is reported; missing data and a thrown exception are reported as caught exceptions |
| Persistence.FetchDesignById | app/services/supabaseService.ts:120-154 | success exactly when there is no error and there is data; no data gives `Design not found`; a thrown exception is reported as caught |
| GalleryLoad.PlaceholderGrid | app/components/Gallery/GalleryContainer.tsx:45 | a 10×10 grid of nulls |
| GalleryLoad.Normalise | app/components/Gallery/GalleryContainer.tsx:39-51 | a design whose pixels are not an array, or are empty, gets the 10×10 null grid. A non-empty array is kept unchanged. Every other field is preserved |
| GalleryLoad.NormaliseAll | app/components/Gallery/GalleryContainer.tsx:39-52 | same length and order as the fetched list |
| GalleryLoad.NormaliseAllKeepsOrder | app/components/Gallery/GalleryContainer.tsx:39-52 | every processed design keeps its id and position and has usable pixels |
| GalleryLoad.NormaliseAllIdempotent | app/components/Gallery/GalleryContainer.tsx:41-46 | normalising processed designs again changes nothing |
| GalleryLoad.ViewOf | app/components/Gallery/GalleryContainer.tsx:70-115 | loading first, then a non-empty error, then the empty view for zero designs, then the grid; each view holds exactly under its condition |
| GalleryLoad.Loader.constructor | app/components/Gallery/GalleryContainer.tsx:27-29 | no designs, loading, no error |
| GalleryLoad.Loader.LoadDesigns | app/components/Gallery/GalleryContainer.tsx:32-65 | success sets the normalised designs. A failed result keeps `designs` and sets `Failed to load designs`; an exception sets `An unexpected error occurred`. `loading` is false on every path, so the view is never the loading view |
| GalleryLoad.FailedLoadShowsError | app/components/Gallery/GalleryContainer.tsx:54-93 | a failed load shows the error view with its message |
| GalleryLoad.FirstLoadView | app/components/Gallery/GalleryContainer.tsx:95-115 | after a first successful load, zero designs show the empty view; otherwise the grid shows the designs in fetch order |
| Studs.Studs | app/components/LegoPiece.tsx:35-48 | a plate renders `width*height` studs, a tile none; stud `i` sits at `(i % width, floor(i / width))` |
| Studs.StudsInRange | app/components/LegoPiece.tsx:35-43 | stud i lies in `[0,width)×[0,height)` and has the piece's colour |
| Studs.StudsInjective | app/components/LegoPiece.tsx:35-37 | distinct stud indices give distinct positions |
| Studs.StudsCoverPlate | app/components/LegoPiece.tsx:35-37 | every cell (a, b) of a plate carries stud `b*width + a` |
| Studs.StudInsideFootprint | app/components/LegoStud.tsx:25-30 | each stud's 16-pixel disc, 4 pixels into its cell, lies inside the piece's `width*24` × `height*24` footprint at (`x*24`, `y*24`), the box app/components/LegoPiece.tsx:17-22 draws |

## Left out

- The keyboard shortcut handler (app/page.tsx:18-36): it is registered once and captures stale state. Only the button and click paths to the same operations are modelled.
- Id generation from `Date.now()`: ids are a fresh counter, and timestamp collisions are not modelled.
- The click's pixel offset is an integer parameter. `getBoundingClientRect` and the mouse event are not modelled.
- Placement.Session.HandlePieceSelect: requires the size to be one of `PIECE_SIZES`. These are the only sizes the pieces panel passes (app/components/PiecesPanel.tsx:153).
- Placement.Session.AddPiece: the board invariant is promised only for x, y ≥ 0. `addPiece` does not check the left and top edges itself; its one caller does.
- All network and backend calls: Supabase queries and inserts, the client set-up, and the image proxy. Replies are parameters. The `created_at` ordering is done by the database.
- JSONB storage is treated as the identity on pixel matrices, palettes and bounds.
- `alert` and `console.error` are not performed. An alert is returned as part of `SaveOutcome`'s report; console output is dropped.
- A non-string `error.message` is treated like a missing one.
- Persistence.SaveOutcome: the surrounding `try`/`catch` is modelled only as far as the reply: the inserted row and the reply are separate inputs.
- Canvas/PNG export, Blob and object URLs, download links, the export status timer, and the floating-point zoom controls.
- `calculatePreviewScale` and the date formatting of gallery cards, which are floating-point and locale UI.
- GalleryTrim.TrimKeepsColors: proved for rectangular matrices only. On a ragged matrix, cells beyond row 0's length can be cut away.
- GalleryTrim.TrimIdempotent: proved for rectangular matrices only, for the same reason.
- GalleryTrim.ExtractShape: proved for rectangular matrices and a box inside the matrix only. On a ragged matrix, a row shorter than the box yields `null` cells past its end.
- GalleryTrim.TrimShape: proved for rectangular matrices only. On a ragged matrix the padded box is clamped to row 0's length and can be empty or miss longer rows.
- GalleryTrim.PaddedBoxHoldsFilled: proved for rectangular matrices only. On `[[null], [null, "r"]]` the padding clamps `maxX` to 0, so the coloured cell (1, 1) falls outside the padded box.
- GalleryTrim.ExtractKeepsColors: proved for rectangular matrices and a box inside the matrix only; the ragged case is not claimed.
- GalleryTrim.ExtractShiftsTightBox: proved for rectangular matrices, for a box inside the matrix that contains the tight box. A box that cuts off a coloured cell moves the tight box by more than its corner.
- GalleryTrim.ExtractWhole: proved for rectangular matrices only. On a ragged matrix, a row shorter than the box comes back padded with `null` to the box's width (`[["a"], []]` gives `[["a"], [null]]`).
- A missing `colorPalette` (the `design.colorPalette &&` guard): the palette is always a sequence here.
- The aliasing of `Array(10).fill(Array(10).fill(null))`: every placeholder row is the same array in JavaScript, which a value model cannot observe.
- Studs.Studs: requires non-negative width and height. With a negative dimension, JavaScript's `%` and `Math.floor` differ from Dafny's, and no offered size is negative.
- Rendering and styling components (board, panel, previews, dialogs, headers, layout, routing) that hold no stateable logic beyond what is modelled.
