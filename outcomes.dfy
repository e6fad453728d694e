/** Optional values, results, and the exceptions of the upload code as
    error values. `RuntimeError` is what geonode/upload raises,
    `ValidationError` is Django's `forms.ValidationError` raised by
    geonode/layers; the remaining variants are Python's built-in
    exceptions, a KML document the parse helper fails on (the XML parser rejects it,
    or it has no default namespace for `ns.pop(None)` to find), and
    `zipfile.BadZipfile`. */
module Outcomes {

  datatype Option<T> = None | Some(value: T)

  datatype Result<T> = Ok(value: T) | Err(error: Error)

  datatype Error =
    | RuntimeError(reason: Reason)
    | ValidationError(reason: Reason)
    | NotImplementedError
    | IndexError
    | AttributeError
    | TypeError
    | MalformedKml
    | BadZipFile

  /** The message an error carries. */
  datatype Reason =
    | InvalidZipFile
    | InvalidKmzFile
    | ShpNotFoundInZip
    | ShpNotFound
    | MandatoryComponentMissing(extension: string)
    | ComponentNameMismatch(shpName: string, extension: string, fileBase: string)
    | MultipleGroundOverlays
    | GroundOverlayImageNotFound
    | NoKmlInKmz
    | MultipleKmlInKmz
    | MultipleShapefiles
    | UnsupportedFileType(fileName: string)
    | UploadedFileNotFound(path: string)
    | ShapefileComponentNotFound(extension: string)

  /** `[f(x) for x in xs]` for an `f` that may raise: the first failure propagates. */
  function MapResults<T, U>(xs: seq<T>, f: T -> Result<U>): (r: Result<seq<U>>)
    ensures r.Err? ==> exists i :: 0 <= i < |xs| && f(xs[i]) == Err(r.error)
  {
    if xs == [] then Ok([])
    else
      match MapResults(xs[..|xs| - 1], f)
      case Err(e) => Err(e)
      case Ok(ys) =>
        match f(xs[|xs| - 1])
        case Err(e) => Err(e)
        case Ok(y) => Ok(ys + [y])
  }

  /** The mapping succeeds exactly when `f` succeeds on every element, and then holds
      each element's image in order; otherwise it fails with the error of the first
      element `f` fails on. */
  lemma {:induction false} MapResultsSpec<T, U>(xs: seq<T>, f: T -> Result<U>)
    ensures MapResults(xs, f).Ok? <==> forall i :: 0 <= i < |xs| ==> f(xs[i]).Ok?
    ensures MapResults(xs, f).Ok? ==> (|MapResults(xs, f).value| == |xs|
      && forall i :: 0 <= i < |xs| ==> MapResults(xs, f).value[i] == f(xs[i]).value)
    ensures MapResults(xs, f).Err? ==> exists i :: (0 <= i < |xs| && f(xs[i]) == Err(MapResults(xs, f).error)
      && forall j :: 0 <= j < i ==> f(xs[j]).Ok?)
  {
    if xs != [] {
      var init := xs[..|xs| - 1];
      MapResultsSpec(init, f);
      assert forall i :: 0 <= i < |init| ==> init[i] == xs[i];
      if MapResults(init, f).Ok? && f(xs[|xs| - 1]).Ok? {
        var ys := MapResults(init, f).value;
        var y := f(xs[|xs| - 1]).value;
        assert forall i :: 0 <= i < |init| ==> (ys + [y])[i] == ys[i];
      } else if MapResults(init, f).Err? {
        var i :| 0 <= i < |init| && f(init[i]) == Err(MapResults(init, f).error)
          && forall j :: 0 <= j < i ==> f(init[j]).Ok?;
        assert f(xs[i]) == Err(MapResults(xs, f).error);
      } else {
        assert f(xs[|init|]) == Err(MapResults(xs, f).error);
      }
    }
  }

  /** One more element mapped successfully extends the mapped prefix. */
  lemma MapResultsStep<T, U>(xs: seq<T>, f: T -> Result<U>, n: nat)
    requires n < |xs| && MapResults(xs[..n], f).Ok? && f(xs[n]).Ok?
    ensures MapResults(xs[..n + 1], f) == Ok(MapResults(xs[..n], f).value + [f(xs[n]).value])
  {
    assert xs[..n + 1][..n] == xs[..n];
  }

  /** A failure on the element after a successful prefix is the failure of that longer prefix. */
  lemma MapResultsFailsAt<T, U>(xs: seq<T>, f: T -> Result<U>, n: nat)
    requires n < |xs| && MapResults(xs[..n], f).Ok? && f(xs[n]).Err?
    ensures MapResults(xs[..n + 1], f) == Err(f(xs[n]).error)
  {
    assert xs[..n + 1][..n] == xs[..n];
  }

  /** Once a prefix fails, the whole mapping fails with the same error. */
  lemma {:induction false} MapResultsErrExtends<T, U>(xs: seq<T>, f: T -> Result<U>, m: nat)
    requires m <= |xs| && MapResults(xs[..m], f).Err?
    ensures MapResults(xs, f) == MapResults(xs[..m], f)
    decreases |xs| - m
  {
    if m < |xs| {
      assert xs[..m + 1][..m] == xs[..m];
      MapResultsErrExtends(xs, f, m + 1);
    } else {
      assert xs[..m] == xs;
    }
  }
}
