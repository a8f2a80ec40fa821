/** The gallery page's loader: fetched designs get a usable pixel matrix, the
    loader's `designs`/`loading`/`error` state follows the fetch outcome, and
    the page shows one of four views in a fixed priority. */
module GalleryLoad {
  import opened Wrappers
  import opened Designs
  import opened Persistence

  /** Side of the placeholder grid given to a design without pixels. */
  const PlaceholderSide: nat := 10

  /** `Array(10).fill(Array(10).fill(null))`. */
  function PlaceholderGrid(): (m: Matrix)
    ensures |m| == PlaceholderSide
    ensures forall y :: 0 <= y < |m| ==> |m[y]| == PlaceholderSide
    ensures forall y, x :: 0 <= y < |m| && 0 <= x < |m[y]| ==> m[y][x].None?
  {
    seq(PlaceholderSide, _ => seq(PlaceholderSide, _ => None))
  }

  /** A value is usable as pixels when it is an array with at least one row. */
  predicate UsablePixels(v: PixelValue) {
    v.Grid? && |v.rows| > 0
  }

  /** The per-design step of the `map`: the spread keeps every field and only
      `pixelData` may be replaced. */
  function Normalise(d: Design): (r: Design)
    ensures r == d.(pixelData := r.pixelData)
    ensures UsablePixels(r.pixelData)
    ensures UsablePixels(d.pixelData) ==> r == d
    ensures !UsablePixels(d.pixelData) ==> r.pixelData == Grid(PlaceholderGrid())
  {
    if UsablePixels(d.pixelData) then d else d.(pixelData := Grid(PlaceholderGrid()))
  }

  /** `result.data.map(...)`. */
  function NormaliseAll(ds: seq<Design>): (r: seq<Design>)
    ensures |r| == |ds|
    ensures forall i :: 0 <= i < |ds| ==> r[i] == Normalise(ds[i])
  {
    if ds == [] then [] else NormaliseAll(ds[..|ds| - 1]) + [Normalise(ds[|ds| - 1])]
  }

  /** After the map every design has usable pixels, keeps its id, and sits at
      the position it was fetched at. */
  lemma NormaliseAllKeepsOrder(ds: seq<Design>)
    ensures |NormaliseAll(ds)| == |ds|
    ensures forall i :: 0 <= i < |ds| ==>
      NormaliseAll(ds)[i].id == ds[i].id && UsablePixels(NormaliseAll(ds)[i].pixelData)
  {
  }

  /** Normalising twice is normalising once. */
  lemma {:induction false} NormaliseAllIdempotent(ds: seq<Design>)
    ensures NormaliseAll(NormaliseAll(ds)) == NormaliseAll(ds)
  {
    var once := NormaliseAll(ds);
    var twice := NormaliseAll(once);
    forall i | 0 <= i < |ds|
      ensures twice[i] == once[i]
    {
      assert once[i] == Normalise(ds[i]);
      assert UsablePixels(once[i].pixelData);
    }
  }

  /** How `loadDesigns`'s `await` ends: the fetch's result, or an exception
      escaping to its own `catch`. */
  datatype LoadOutcome = Completed(result: FetchAll) | Rejected

  const LoadFailedMessage: string := "Failed to load designs"
  const UnexpectedMessage: string := "An unexpected error occurred"

  /** What the page renders. */
  datatype View = LoadingView | ErrorView(message: string) | EmptyView | GridView(designs: seq<Design>)

  /** The chain of early returns at the end of the component. */
  function ViewOf(loading: bool, error: Option<string>, designs: seq<Design>): (v: View)
    ensures loading <==> v == LoadingView
    ensures v.ErrorView? <==> !loading && Truthy(error)
    ensures v.ErrorView? ==> v.message == error.value
    ensures v == EmptyView <==> !loading && !Truthy(error) && |designs| == 0
    ensures v.GridView? <==> !loading && !Truthy(error) && |designs| > 0
    ensures v.GridView? ==> v.designs == designs
  {
    if loading then LoadingView
    else if Truthy(error) then ErrorView(error.value)
    else if |designs| == 0 then EmptyView
    else GridView(designs)
  }

  /** The gallery component's state. */
  class Loader {
    var designs: seq<Design>
    var loading: bool
    var error: Option<string>

    /** The initial `useState` values. */
    constructor ()
      ensures designs == [] && loading && error.None?
    {
      designs := [];
      loading := true;
      error := None;
    }

    function View(): View
      reads this
    {
      ViewOf(loading, error, designs)
    }

    /** `loadDesigns`: `loading` is set, the outcome is handled, and the
        `finally` clears `loading` on every path. */
    method LoadDesigns(outcome: LoadOutcome)
      modifies this
      ensures !loading
      ensures outcome.Completed? && outcome.result.Fetched? ==>
        designs == NormaliseAll(outcome.result.designs) && error == old(error)
      ensures outcome.Completed? && outcome.result.FetchFailed? ==>
        designs == old(designs) && error == Some(LoadFailedMessage)
      ensures outcome.Rejected? ==> designs == old(designs) && error == Some(UnexpectedMessage)
      ensures View() != LoadingView
    {
      loading := true;
      match outcome {
        case Completed(result) =>
          if result.Fetched? {
            designs := NormaliseAll(result.designs);
          } else {
            error := Some(LoadFailedMessage);
          }
        case Rejected =>
          error := Some(UnexpectedMessage);
      }
      loading := false;
    }
  }

  /** A failed load always ends on the error view with its message. */
  lemma FailedLoadShowsError(designs: seq<Design>)
    ensures ViewOf(false, Some(LoadFailedMessage), designs) == ErrorView(LoadFailedMessage)
  {
  }

  /** A first successful load shows the empty view exactly when nothing was
      fetched, and otherwise the normalised designs in fetch order. */
  lemma FirstLoadView(fetched: seq<Design>)
    ensures |fetched| == 0 ==> ViewOf(false, None, NormaliseAll(fetched)) == EmptyView
    ensures |fetched| > 0 ==> ViewOf(false, None, NormaliseAll(fetched)) == GridView(NormaliseAll(fetched))
  {
  }
}
