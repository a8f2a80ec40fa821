/** The persistence service: the row `saveDesign` inserts into the `designs`
    table, the mapping of stored rows back to gallery designs, and how each
    database reply is classified as a success or a failure. The database is
    not modelled; its reply is a parameter. */
module Persistence {
  import opened Wrappers
  import opened Designs

  /** What the builder submits (`DesignData`). */
  datatype DesignData = DesignData(
    name: string,
    creator: string,
    image: Option<string>,
    pixelData: Matrix,
    colorPalette: seq<string>,
    bounds: Option<Bounds>)

  /** The object handed to `insert`, with snake_case keys. `image` is `None`
      when the object has no `image` key at all. */
  datatype InsertRow = InsertRow(
    name: string,
    creator: string,
    pixel_data: Matrix,
    color_palette: seq<string>,
    bounds: Option<Bounds>,
    image: Option<string>)

  /** A row of the `designs` table; `image` and `bounds` are the nullable columns. */
  datatype StoredRow = StoredRow(
    id: string,
    name: string,
    creator: string,
    image: Option<string>,
    pixel_data: PixelValue,
    color_palette: seq<string>,
    bounds: Option<Bounds>,
    created_at: string)

  /** JavaScript truthiness of an optional string: absent and "" are falsy. */
  predicate Truthy(s: Option<string>) {
    s.Some? && s.value != ""
  }

  // ---------------------------------------------------------------------------
  // The inserted row

  /** The row `saveDesign` inserts for `d`. */
  function InsertRowOf(d: DesignData): (r: InsertRow)
    ensures r.name == d.name && r.creator == d.creator
    ensures r.pixel_data == d.pixelData && r.color_palette == d.colorPalette
    ensures r.bounds == d.bounds
    ensures r.image.Some? <==> Truthy(d.image)
    ensures r.image.Some? ==> r.image == d.image
  {
    InsertRow(d.name, d.creator, d.pixelData, d.colorPalette, d.bounds,
              if Truthy(d.image) then d.image else None)
  }

  /** `dataToInsert`: the five fixed keys first (`bounds || null`), then the
      `image` key is added in place when the image is non-empty. */
  method PrepareInsert(d: DesignData) returns (row: InsertRow)
    ensures row == InsertRowOf(d)
  {
    row := InsertRow(d.name, d.creator, d.pixelData, d.colorPalette,
                     if d.bounds.Some? then d.bounds else None, None);
    if Truthy(d.image) {
      row := row.(image := d.image);
    }
  }

  /** The row the table holds after inserting `r`: a missing `image` key is a
      null column, and the database supplies `id` and `created_at`. */
  function Store(r: InsertRow, id: string, createdAt: string): (s: StoredRow)
    ensures s.id == id && s.created_at == createdAt
    ensures s.name == r.name && s.creator == r.creator && s.color_palette == r.color_palette
    ensures s.image == r.image && s.bounds == r.bounds
    ensures s.pixel_data == Grid(r.pixel_data)
  {
    StoredRow(id, r.name, r.creator, r.image, Grid(r.pixel_data), r.color_palette, r.bounds, createdAt)
  }

  // ---------------------------------------------------------------------------
  // Stored rows back to designs

  /** The object literal in both fetch functions. */
  function FromRow(s: StoredRow): (d: Design)
    ensures d.id == s.id && d.name == s.name && d.creator == s.creator
    ensures d.image == s.image && d.pixelData == s.pixel_data
    ensures d.colorPalette == s.color_palette && d.bounds == s.bounds
    ensures d.createdAt == s.created_at
  {
    Design(s.id, s.name, s.creator, s.image, s.pixel_data, s.color_palette, s.bounds, s.created_at)
  }

  /** `data.map(...)`: one design per row, in the order the rows came back. */
  function FromRows(rows: seq<StoredRow>): (ds: seq<Design>)
    ensures |ds| == |rows|
    ensures forall i :: 0 <= i < |rows| ==> ds[i] == FromRow(rows[i])
  {
    if rows == [] then [] else FromRows(rows[..|rows| - 1]) + [FromRow(rows[|rows| - 1])]
  }

  /** Saving a design and reading its row back returns what was submitted:
      name, creator, pixels, palette and bounds (absent bounds read back as
      null); the image survives exactly when it was non-empty. */
  lemma RoundTrip(d: DesignData, id: string, createdAt: string)
    ensures var back := FromRow(Store(InsertRowOf(d), id, createdAt));
      && back.id == id && back.createdAt == createdAt
      && back.name == d.name && back.creator == d.creator
      && back.pixelData == Grid(d.pixelData) && back.colorPalette == d.colorPalette
      && back.bounds == d.bounds
      && back.image == (if Truthy(d.image) then d.image else None)
  {
  }

  // ---------------------------------------------------------------------------
  // Substring search (`String.prototype.includes`)

  predicate StartsWith(s: string, p: string) {
    |p| <= |s| && s[..|p|] == p
  }

  /** `s.includes(p)`. */
  predicate Contains(s: string, p: string)
    decreases |s|
  {
    StartsWith(s, p) || (|s| > 0 && Contains(s[1..], p))
  }

  /** `p` occurs in `s` starting at offset `i`. */
  predicate OccursAt(s: string, p: string, i: nat) {
    i + |p| <= |s| && s[i..i + |p|] == p
  }

  /** A match found by `Contains` sits at some offset. */
  lemma {:induction false} ContainsHasOffset(s: string, p: string)
    requires Contains(s, p)
    ensures exists i: nat :: OccursAt(s, p, i)
    decreases |s|
  {
    if StartsWith(s, p) {
      assert OccursAt(s, p, 0);
    } else {
      ContainsHasOffset(s[1..], p);
      var j: nat :| OccursAt(s[1..], p, j);
      assert s[j + 1..j + 1 + |p|] == s[1..][j..j + |p|];
      assert OccursAt(s, p, j + 1);
    }
  }

  /** An occurrence at offset `i` is found by `Contains`. */
  lemma {:induction false} OffsetContained(s: string, p: string, i: nat)
    requires OccursAt(s, p, i)
    ensures Contains(s, p)
    decreases i
  {
    if i == 0 {
      assert s[..|p|] == s[i..i + |p|];
    } else {
      assert s[1..][i - 1..i - 1 + |p|] == s[i..i + |p|];
      OffsetContained(s[1..], p, i - 1);
    }
  }

  /** `Contains` holds exactly when `p` occurs at some offset of `s`. */
  lemma ContainsIff(s: string, p: string)
    ensures Contains(s, p) <==> exists i: nat :: OccursAt(s, p, i)
  {
    if Contains(s, p) {
      ContainsHasOffset(s, p);
    }
    if exists i: nat :: OccursAt(s, p, i) {
      var i: nat :| OccursAt(s, p, i);
      OffsetContained(s, p, i);
    }
  }

  // ---------------------------------------------------------------------------
  // Replies and their classification

  /** The error object of a reply; `message` is `None` when it is missing. */
  datatype DbError = DbError(message: Option<string>)

  /** Why an operation reported `success: false`. */
  datatype Failure =
    | Reported(error: DbError)   // the reply carried an error, or the service made one up
    | Thrown                     // an exception was caught

  /** A reply of the database client: the `{ data, error }` pair, or a throw. */
  datatype Reply<T> = Reply(data: Option<T>, error: Option<DbError>) | Throws

  const MissingTableMarker: string := "relation \"designs\" does not exist"

  /** The two alerts `saveDesign` can raise. */
  datatype Alert = MissingTableAlert | ErrorAlert(message: Option<string>)

  /** The text of an alert. */
  function AlertText(a: Alert): string {
    match a
    case MissingTableAlert =>
      "The designs table does not exist in your Supabase database. Please run the SQL in create_designs_table.sql in your Supabase dashboard."
    case ErrorAlert(message) =>
      "Error saving design: " + (if Truthy(message) then message.value else "Unknown error")
  }

  /** Whether the insert error names the missing table. */
  predicate MissingTable(e: DbError) {
    Truthy(e.message) && Contains(e.message.value, MissingTableMarker)
  }

  datatype SaveResult = Saved(rows: Option<seq<StoredRow>>) | SaveFailed(failure: Failure)

  /** What `saveDesign` returns, and the alert it raised on the way. */
  datatype SaveReport = SaveReport(result: SaveResult, alert: Option<Alert>)

  /** `saveDesign` after the insert replied: an error raises one of two alerts
      and is rethrown into the `catch`, which reports it. */
  function SaveOutcome(reply: Reply<seq<StoredRow>>): (r: SaveReport)
    ensures r.result.Saved? <==> reply.Reply? && reply.error.None?
    ensures r.result.Saved? ==> r.result.rows == reply.data && r.alert.None?
    ensures reply.Throws? ==> r == SaveReport(SaveFailed(Thrown), None)
    ensures reply.Reply? && reply.error.Some? ==>
      r.result == SaveFailed(Reported(reply.error.value))
      && r.alert.Some?
      && (r.alert.value == MissingTableAlert <==> MissingTable(reply.error.value))
      && (!MissingTable(reply.error.value) ==> r.alert.value == ErrorAlert(reply.error.value.message))
  {
    match reply
    case Throws => SaveReport(SaveFailed(Thrown), None)
    case Reply(data, error) =>
      if error.None? then SaveReport(Saved(data), None)
      else
        var alert := if MissingTable(error.value) then MissingTableAlert else ErrorAlert(error.value.message);
        SaveReport(SaveFailed(Reported(error.value)), Some(alert))
  }

  /** A failed insert whose error does not name the missing table raises the
      alert `Error saving design: ` followed by the error's message, or by
      `Unknown error` when the message is absent or empty. */
  lemma ErrorAlertText(e: DbError)
    requires !MissingTable(e)
    ensures var r := SaveOutcome(Reply(None, Some(e)));
      && r.alert.Some?
      && AlertText(r.alert.value) ==
         "Error saving design: " + (if Truthy(e.message) then e.message.value else "Unknown error")
  {
  }

  /** The table-missing alert is raised exactly for an error whose message
      contains the marker at some offset. */
  lemma MissingTableAlertIff(e: DbError)
    ensures SaveOutcome(Reply(None, Some(e))).alert == Some(MissingTableAlert) <==>
      Truthy(e.message) && exists i: nat :: OccursAt(e.message.value, MissingTableMarker, i)
  {
    if Truthy(e.message) {
      ContainsIff(e.message.value, MissingTableMarker);
    }
  }

  datatype FetchAll = Fetched(designs: seq<Design>) | FetchFailed(failure: Failure)

  /** `fetchDesigns` after the select replied. A reply with neither data nor
      an error makes `data.map` throw, which the `catch` reports. */
  function FetchDesigns(reply: Reply<seq<StoredRow>>): (r: FetchAll)
    ensures r.Fetched? <==> reply.Reply? && reply.error.None? && reply.data.Some?
    ensures r.Fetched? ==> r.designs == FromRows(reply.data.value)
    ensures reply.Reply? && reply.error.Some? ==> r == FetchFailed(Reported(reply.error.value))
    ensures reply.Reply? && reply.error.None? && reply.data.None? ==> r == FetchFailed(Thrown)
    ensures reply.Throws? ==> r == FetchFailed(Thrown)
  {
    match reply
    case Throws => FetchFailed(Thrown)
    case Reply(data, error) =>
      if error.Some? then FetchFailed(Reported(error.value))
      else if data.None? then FetchFailed(Thrown)
      else Fetched(FromRows(data.value))
  }

  datatype FetchOne = Found(design: Design) | NotFound(failure: Failure)

  const NotFoundMessage: string := "Design not found"

  /** `fetchDesignById` after the single-row select replied. */
  function FetchDesignById(reply: Reply<StoredRow>): (r: FetchOne)
    ensures r.Found? <==> reply.Reply? && reply.error.None? && reply.data.Some?
    ensures r.Found? ==> r.design == FromRow(reply.data.value)
    ensures reply.Reply? && reply.error.Some? ==> r == NotFound(Reported(reply.error.value))
    ensures reply.Reply? && reply.error.None? && reply.data.None? ==>
      r == NotFound(Reported(DbError(Some(NotFoundMessage))))
    ensures reply.Throws? ==> r == NotFound(Thrown)
  {
    match reply
    case Throws => NotFound(Thrown)
    case Reply(data, error) =>
      if error.Some? then NotFound(Reported(error.value))
      else if data.None? then NotFound(Reported(DbError(Some(NotFoundMessage))))
      else Found(FromRow(data.value))
  }

  /** A design saved and then fetched through the list comes back with its
      submitted fields at its position in the reply. */
  lemma SavedDesignListed(d: DesignData, id: string, createdAt: string,
                          before: seq<StoredRow>, after: seq<StoredRow>)
    ensures var rows := before + [Store(InsertRowOf(d), id, createdAt)] + after;
      var r := FetchDesigns(Reply(Some(rows), None));
      && r.Fetched? && |r.designs| == |rows|
      && r.designs[|before|].id == id && r.designs[|before|].createdAt == createdAt
      && r.designs[|before|].name == d.name && r.designs[|before|].creator == d.creator
      && r.designs[|before|].pixelData == Grid(d.pixelData)
      && r.designs[|before|].colorPalette == d.colorPalette
      && r.designs[|before|].bounds == d.bounds
      && r.designs[|before|].image == (if Truthy(d.image) then d.image else None)
  {
    var rows := before + [Store(InsertRowOf(d), id, createdAt)] + after;
    assert rows[|before|] == Store(InsertRowOf(d), id, createdAt);
    RoundTrip(d, id, createdAt);
  }
}
