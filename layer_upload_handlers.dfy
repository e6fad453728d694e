/** The older generation of upload handling, geonode/layers/uploadhandlers.py:
    the handler class chosen for a form's base file, the validation each
    handler's `__init__` performs, and the extension-to-path maps that
    `save_django_files` and `save_zipped_file` return.

    Its rules differ from those of geonode/upload/uploadhandlers.py: the
    first shapefile companion wins, a second `.shp` or `.kml` is rejected,
    and the ground overlay's href is compared without stripping it. */
module LayerUploadHandlers {
  import opened PyStrings
  import opened Outcomes
  import opened Bundle
  import opened SeqSearch
  import UploadHandlers

  // ---------------------------------------------------------------------
  // _get_extension and get_upload_handler
  // ---------------------------------------------------------------------

  /** `_get_extension`: the extension `splitext` finds, without its dot and
      with its case kept. */
  function GetExtension(fileFragment: string): string {
    RemoveChar(SplitExt(fileFragment).1, '.')
  }

  /** The extension has neither a dot nor a slash, and with a dot in front it is what
      `splitext` splits off (or both are empty). */
  lemma GetExtensionSpec(fileFragment: string)
    ensures var r := GetExtension(fileFragment);
      && '.' !in r && '/' !in r
      && (SplitExt(fileFragment).1 == "." + r || (SplitExt(fileFragment).1 == [] && r == []))
  {
    var ext := SplitExt(fileFragment).1;
    assert ext != [] ==> ext == "." + ext[1..];
  }

  /** Lower-casing the old extension gives the new module's `get_file_extension`. */
  lemma GetExtensionLowered(name: string)
    ensures Lower(GetExtension(name)) == UploadHandlers.GetFileExtension(name)
  {
  }

  /** The handler class `get_upload_handler` returns. */
  datatype HandlerClass =
    | KmzHandlerClass
    | ZippedFileHandlerClass
    | KmlHandlerClass
    | ShapefileHandlerClass
    | AsciiHandlerClass
    | GeotiffHandlerClass

  const GeotiffExtensions: set<string> := {"tif", "tiff", "geotif", "geotiff"}

  /** The dispatch of `get_upload_handler` once the base file's zip-ness and its
      lower-cased extension are known. */
  function HandlerForExtension(isZip: bool, extension: string, fileName: string): (r: Result<HandlerClass>)
    ensures isZip ==> r in {Ok(KmzHandlerClass), Ok(ZippedFileHandlerClass), Err(NotImplementedError)}
    ensures !isZip ==> r.Err? ==> r.error == ValidationError(UnsupportedFileType(fileName))
  {
    if isZip then
      if extension == "kmz" then Ok(KmzHandlerClass)
      else if extension == "zip" then Ok(ZippedFileHandlerClass)
      else Err(NotImplementedError)
    else if extension == "kml" then Ok(KmlHandlerClass)
    else if extension == "shp" then Ok(ShapefileHandlerClass)
    else if extension == "asc" then Ok(AsciiHandlerClass)
    else if extension in GeotiffExtensions then Ok(GeotiffHandlerClass)
    else Err(ValidationError(UnsupportedFileType(fileName)))
  }

  /** The dispatch table in full: each handler class is chosen for exactly one zip-ness
      and one set of extensions, and everything else is refused. */
  lemma HandlerForExtensionTable(isZip: bool, extension: string, fileName: string)
    ensures HandlerForExtension(isZip, extension, fileName) == Ok(KmzHandlerClass) <==> isZip && extension == "kmz"
    ensures HandlerForExtension(isZip, extension, fileName) == Ok(ZippedFileHandlerClass) <==> isZip && extension == "zip"
    ensures HandlerForExtension(isZip, extension, fileName) == Err(NotImplementedError) <==>
      isZip && extension != "kmz" && extension != "zip"
    ensures HandlerForExtension(isZip, extension, fileName) == Ok(KmlHandlerClass) <==> !isZip && extension == "kml"
    ensures HandlerForExtension(isZip, extension, fileName) == Ok(ShapefileHandlerClass) <==> !isZip && extension == "shp"
    ensures HandlerForExtension(isZip, extension, fileName) == Ok(AsciiHandlerClass) <==> !isZip && extension == "asc"
    ensures HandlerForExtension(isZip, extension, fileName) == Ok(GeotiffHandlerClass) <==>
      !isZip && extension in {"tif", "tiff", "geotif", "geotiff"}
    ensures HandlerForExtension(isZip, extension, fileName) == Err(ValidationError(UnsupportedFileType(fileName))) <==>
      !isZip && extension !in {"kml", "shp", "asc", "tif", "tiff", "geotif", "geotiff"}
  {
  }

  /** `get_upload_handler`: an archive is told apart by extension among kmz and zip,
      any other file by extension among the single-file formats. */
  function GetUploadHandler(baseFile: UploadedFile): Result<HandlerClass> {
    HandlerForExtension(baseFile.isZip, Lower(GetExtension(baseFile.name)), baseFile.name)
  }

  /** The dispatch depends on the base file only through its zip-ness and the extension
      the newer module's `get_file_extension` computes. */
  lemma UploadHandlerByExtension(baseFile: UploadedFile)
    ensures GetUploadHandler(baseFile) ==
      HandlerForExtension(baseFile.isZip, UploadHandlers.GetFileExtension(baseFile.name), baseFile.name)
  {
    GetExtensionLowered(baseFile.name);
  }

  /** A zip archive named like a shapefile is not dispatched as one. */
  lemma ZippedShapefileNotImplemented(stem: string, ext: string, members: seq<ArchiveMember>, kml: KmlParse)
    requires stem != [] && '.' !in stem && '/' !in stem && '.' !in ext && '/' !in ext
    requires Lower(ext) == "shp"
    ensures GetUploadHandler(UploadedFile(stem + "." + ext, true, members, kml)) == Err(NotImplementedError)
  {
    UploadHandlers.ExtensionOfSimpleName(stem, ext);
    GetExtensionLowered(stem + "." + ext);
  }

  // ---------------------------------------------------------------------
  // _validate_ground_overlay_kml and _validate_kml
  // ---------------------------------------------------------------------

  /** What `_validate_kml` returns: the document, and for a ground overlay also its image path. */
  datatype KmlValidation = VectorKml(doc: KmlDoc) | RasterKml(doc: KmlDoc, imagePath: string)

  /** `_validate_ground_overlay_kml`: the overlay's first href, unstripped, which must be
      one of the possible files; an overlay without an href fails on indexing. */
  function ValidateGroundOverlayKml(overlay: GroundOverlay, possibleFiles: seq<string>): (r: Result<string>)
    ensures r.Ok? <==> overlay.href.Some? && overlay.href.value in possibleFiles
    ensures r.Ok? ==> r.value == overlay.href.value
    ensures overlay.href.None? ==> r == Err(IndexError)
    ensures overlay.href.Some? && r.Err? ==> r.error == ValidationError(GroundOverlayImageNotFound)
  {
    match overlay.href
    case None => Err(IndexError)
    case Some(iconPath) =>
      if iconPath !in possibleFiles then Err(ValidationError(GroundOverlayImageNotFound))
      else Ok(iconPath)
  }

  /** `_validate_kml`. */
  function ValidateKml(kml: KmlParse, otherFiles: seq<string>): (r: Result<KmlValidation>)
    ensures kml.Unparsable? ==> r == Err(MalformedKml)
    ensures kml.Parsed? ==> var overlays := kml.doc.groundOverlays;
      && (r.Ok? <==> |overlays| == 0 || (|overlays| == 1 && ValidateGroundOverlayKml(overlays[0], otherFiles).Ok?))
      && (|overlays| > 1 ==> r == Err(ValidationError(MultipleGroundOverlays)))
      && (|overlays| == 0 ==> r == Ok(VectorKml(kml.doc)))
      && (|overlays| == 1 && r.Ok? ==> r.value == RasterKml(kml.doc, overlays[0].href.value))
      && (|overlays| == 1 && r.Err? ==> r.error == ValidateGroundOverlayKml(overlays[0], otherFiles).error)
  {
    match kml
    case Unparsable => Err(MalformedKml)
    case Parsed(doc) =>
      var groundOverlays := doc.groundOverlays;
      if |groundOverlays| > 1 then Err(ValidationError(MultipleGroundOverlays))
      else if |groundOverlays| == 1 then
        match ValidateGroundOverlayKml(groundOverlays[0], otherFiles)
        case Err(e) => Err(e)
        case Ok(imagePath) => Ok(RasterKml(doc, imagePath))
      else Ok(VectorKml(doc))
  }

  /** A ground overlay whose href carries whitespace around the image's name is accepted
      by the newer module, which strips the href, and rejected by this one. */
  lemma PaddedHrefOnlyAcceptedByNewerModule(doc: KmlDoc, overlay: GroundOverlay, before: string, path: string, after: string)
    requires doc.groundOverlays == [overlay]
    requires AllWhitespace(before) && AllWhitespace(after) && before != []
    requires path == [] || (!IsWhitespace(path[0]) && !IsWhitespace(path[|path| - 1]))
    requires overlay.href == Some(before + path + after)
    ensures UploadHandlers.ValidateKmlGroundOverlay(Parsed(doc), path) == Ok(())
    ensures ValidateKml(Parsed(doc), [path]) == Err(ValidationError(GroundOverlayImageNotFound))
  {
    UploadHandlers.PaddedHrefAccepted(doc, overlay, before, path, after);
    assert |before + path + after| > |path|;
  }

  // ---------------------------------------------------------------------
  // _validate_shapefile_components
  // ---------------------------------------------------------------------

  /** One entry of `shapefile_additional`. */
  datatype ShapefileAux = ShapefileAux(extension: string, mandatory: bool)

  const ShapefileAdditional: seq<ShapefileAux> := [
    ShapefileAux("dbf", true),
    ShapefileAux("shx", true),
    ShapefileAux("prj", false),
    ShapefileAux("xml", false),
    ShapefileAux("sld", false)
  ]

  predicate IsShpName(name: string) { EndsWith(Lower(name), ".shp") }

  /** Whether `path` is taken as the `extension` component of a shapefile whose base
      name is `baseName`: its base name matches and it ends with the extension, compared
      case-sensitively and without a dot. */
  predicate IsCompanion(path: string, baseName: string, extension: string) {
    Stem(path) == baseName && EndsWith(path, extension)
  }

  /** `IsCompanion` for a fixed base name, as a test on paths for each extension. */
  function CompanionsOf(baseName: string): string -> string -> bool {
    extension => path => IsCompanion(path, baseName, extension)
  }

  /** The index the inner `for path in possible_files` loop stops at for `extension`,
      or -1. */
  function FirstCompanion(paths: seq<string>, isCompanion: string -> string -> bool, extension: string): int {
    FirstIndexWhere(paths, isCompanion(extension))
  }

  predicate HasAux(auxes: seq<ShapefileAux>, extension: string) {
    exists i :: 0 <= i < |auxes| && auxes[i].extension == extension
  }

  /** The `components` dictionary once the outer loop has gone through `auxes`. */
  function ComponentsFound(paths: seq<string>, shp: string, isCompanion: string -> string -> bool, auxes: seq<ShapefileAux>): map<string, string> {
    if auxes == [] then map["shp" := shp]
    else
      var m := ComponentsFound(paths, shp, isCompanion, auxes[..|auxes| - 1]);
      var extension := auxes[|auxes| - 1].extension;
      var j := FirstCompanion(paths, isCompanion, extension);
      if j >= 0 then m[extension := paths[j]] else m
  }

  /** `components` holds `shp` and each extension of `auxes` that has a companion,
      mapped to its first companion; `shp` keeps the shapefile unless `auxes` names it. */
  lemma ComponentsFoundSpec(paths: seq<string>, shp: string, isCompanion: string -> string -> bool, auxes: seq<ShapefileAux>)
    ensures forall k :: k in ComponentsFound(paths, shp, isCompanion, auxes) <==>
      k == "shp" || (HasAux(auxes, k) && FirstCompanion(paths, isCompanion, k) >= 0)
    ensures forall k :: k in ComponentsFound(paths, shp, isCompanion, auxes) && k != "shp" ==>
      ComponentsFound(paths, shp, isCompanion, auxes)[k] == paths[FirstCompanion(paths, isCompanion, k)]
    ensures !HasAux(auxes, "shp") ==> ComponentsFound(paths, shp, isCompanion, auxes)["shp"] == shp
  {
    ComponentsFoundKeys(paths, shp, isCompanion, auxes);
    ComponentsFoundValues(paths, shp, isCompanion, auxes);
  }

  /** The entries `auxes` names are those of its prefix and its last entry. */
  lemma HasAuxSnoc(auxes: seq<ShapefileAux>)
    requires auxes != []
    ensures forall k :: HasAux(auxes, k) <==> HasAux(auxes[..|auxes| - 1], k) || k == auxes[|auxes| - 1].extension
  {
    var init := auxes[..|auxes| - 1];
    forall k | HasAux(init, k) ensures HasAux(auxes, k) {
      var i :| 0 <= i < |init| && init[i].extension == k;
      assert auxes[i] == init[i];
    }
  }

  lemma {:induction false} ComponentsFoundKeys(paths: seq<string>, shp: string, isCompanion: string -> string -> bool, auxes: seq<ShapefileAux>)
    ensures forall k :: k in ComponentsFound(paths, shp, isCompanion, auxes) <==>
      k == "shp" || (HasAux(auxes, k) && FirstCompanion(paths, isCompanion, k) >= 0)
  {
    if auxes != [] {
      ComponentsFoundKeys(paths, shp, isCompanion, auxes[..|auxes| - 1]);
      HasAuxSnoc(auxes);
    }
  }

  lemma {:induction false} ComponentsFoundValues(paths: seq<string>, shp: string, isCompanion: string -> string -> bool, auxes: seq<ShapefileAux>)
    ensures "shp" in ComponentsFound(paths, shp, isCompanion, auxes)
    ensures forall k :: k in ComponentsFound(paths, shp, isCompanion, auxes) && k != "shp" ==>
      0 <= FirstCompanion(paths, isCompanion, k)
      && ComponentsFound(paths, shp, isCompanion, auxes)[k] == paths[FirstCompanion(paths, isCompanion, k)]
    ensures !HasAux(auxes, "shp") ==> ComponentsFound(paths, shp, isCompanion, auxes)["shp"] == shp
  {
    if auxes != [] {
      ComponentsFoundValues(paths, shp, isCompanion, auxes[..|auxes| - 1]);
      HasAuxSnoc(auxes);
    }
  }

  /** The first mandatory entry of `auxes` without a companion, if any. */
  function FirstMissingMandatory(paths: seq<string>, isCompanion: string -> string -> bool, auxes: seq<ShapefileAux>): Option<string> {
    if auxes == [] then None
    else
      var last := auxes[|auxes| - 1];
      var r := FirstMissingMandatory(paths, isCompanion, auxes[..|auxes| - 1]);
      if r.Some? then r
      else if last.mandatory && FirstCompanion(paths, isCompanion, last.extension) < 0 then Some(last.extension)
      else None
  }

  /** Nothing is missing exactly when every mandatory entry has a companion; otherwise
      the entry reported is mandatory, has none, and every mandatory entry before it has one. */
  lemma {:induction false} FirstMissingMandatorySpec(paths: seq<string>, isCompanion: string -> string -> bool, auxes: seq<ShapefileAux>)
    ensures var r := FirstMissingMandatory(paths, isCompanion, auxes);
      && (r.None? <==> forall i :: 0 <= i < |auxes| && auxes[i].mandatory ==>
            FirstCompanion(paths, isCompanion, auxes[i].extension) >= 0)
      && (r.Some? ==> exists i :: (0 <= i < |auxes| && auxes[i].mandatory && r.value == auxes[i].extension
            && FirstCompanion(paths, isCompanion, auxes[i].extension) < 0
            && forall j :: 0 <= j < i && auxes[j].mandatory ==> FirstCompanion(paths, isCompanion, auxes[j].extension) >= 0))
  {
    if auxes != [] {
      var init := auxes[..|auxes| - 1];
      assert forall i :: 0 <= i < |init| ==> init[i] == auxes[i];
      FirstMissingMandatorySpec(paths, isCompanion, init);
    }
  }

  /** Once a mandatory component is missing, later entries do not change the verdict. */
  lemma {:induction false} FirstMissingStable(paths: seq<string>, isCompanion: string -> string -> bool, auxes: seq<ShapefileAux>, n: nat)
    requires n <= |auxes| && FirstMissingMandatory(paths, isCompanion, auxes[..n]).Some?
    ensures FirstMissingMandatory(paths, isCompanion, auxes) == FirstMissingMandatory(paths, isCompanion, auxes[..n])
    decreases |auxes| - n
  {
    if n < |auxes| {
      assert auxes[..n + 1][..n] == auxes[..n];
      FirstMissingStable(paths, isCompanion, auxes, n + 1);
    } else {
      assert auxes[..n] == auxes;
    }
  }

  /** The outer loop's verdict once the shapefile `shp` is known: the first missing
      mandatory component, or the components found. */
  function ComponentsOfShapefile(paths: seq<string>, shp: string, isCompanion: string -> string -> bool): (r: Result<map<string, string>>)
    ensures r.Ok? ==> "shp" in r.value && r.value["shp"] == shp
    ensures r.Ok? ==> forall k :: k in r.value ==> r.value[k] == shp || r.value[k] in paths
  {
    match FirstMissingMandatory(paths, isCompanion, ShapefileAdditional)
    case Some(extension) => Err(ValidationError(MandatoryComponentMissing(extension)))
    case None =>
      assert !HasAux(ShapefileAdditional, "shp") by {
        assert forall i :: 0 <= i < |ShapefileAdditional| ==> ShapefileAdditional[i].extension != "shp";
      }
      ComponentsFoundSpec(paths, shp, isCompanion, ShapefileAdditional);
      Ok(ComponentsFound(paths, shp, isCompanion, ShapefileAdditional))
  }

  /** What `_validate_shapefile_components` returns or raises. */
  function ShapefileComponentsOf(possibleFiles: seq<string>): (r: Result<map<string, string>>)
    ensures r.Ok? ==> "shp" in r.value && r.value["shp"] in possibleFiles && IsShpName(r.value["shp"])
    ensures r.Ok? ==> forall k :: k in r.value ==> r.value[k] in possibleFiles
  {
    var shpFiles := Filter(possibleFiles, IsShpName);
    if |shpFiles| > 1 then Err(ValidationError(MultipleShapefiles))
    else if |shpFiles| == 0 then Err(IndexError)
    else ComponentsOfShapefile(possibleFiles, shpFiles[0], CompanionsOf(Stem(shpFiles[0])))
  }

  /** `_validate_shapefile_components`: picks the single `.shp` name and hands the
      outer loop the companion test for its base name. */
  method ValidateShapefileComponents(possibleFiles: seq<string>) returns (r: Result<map<string, string>>)
    ensures r == ShapefileComponentsOf(possibleFiles)
  {
    var shpFiles := Filter(possibleFiles, IsShpName);
    if |shpFiles| > 1 {
      return Err(ValidationError(MultipleShapefiles));
    }
    if |shpFiles| == 0 {
      return Err(IndexError);
    }
    var shapeComponent := shpFiles[0];
    var baseName := Stem(shapeComponent);
    r := CollectComponents(possibleFiles, shapeComponent, CompanionsOf(baseName));
  }

  /** The outer loop of `_validate_shapefile_components` over `shapefile_additional`,
      returning at the first mandatory component that is missing. */
  method CollectComponents(possibleFiles: seq<string>, shapeComponent: string, isCompanion: string -> string -> bool)
    returns (r: Result<map<string, string>>)
    ensures r == ComponentsOfShapefile(possibleFiles, shapeComponent, isCompanion)
  {
    var components := map["shp" := shapeComponent];
    var a := 0;
    while a < |ShapefileAdditional|
      invariant 0 <= a <= |ShapefileAdditional|
      invariant FirstMissingMandatory(possibleFiles, isCompanion, ShapefileAdditional[..a]).None?
      invariant components == ComponentsFound(possibleFiles, shapeComponent, isCompanion, ShapefileAdditional[..a])
    {
      var additionalComponent := ShapefileAdditional[a];
      OuterLoopStep(possibleFiles, shapeComponent, isCompanion, ShapefileAdditional, a);
      var i := FindComponent(possibleFiles, isCompanion(additionalComponent.extension));
      if i >= 0 {
        components := components[additionalComponent.extension := possibleFiles[i]];
      } else if additionalComponent.mandatory {
        FirstMissingStable(possibleFiles, isCompanion, ShapefileAdditional, a + 1);
        return Err(ValidationError(MandatoryComponentMissing(additionalComponent.extension)));
      }
      a := a + 1;
    }
    assert ShapefileAdditional[..a] == ShapefileAdditional;
    r := Ok(components);
  }

  /** One more entry of `auxes` extends `components` by its first companion, if it has
      one, and fails when it is mandatory and has none. */
  lemma OuterLoopStep(paths: seq<string>, shp: string, isCompanion: string -> string -> bool, auxes: seq<ShapefileAux>, a: nat)
    requires a < |auxes|
    ensures var j := FirstCompanion(paths, isCompanion, auxes[a].extension);
      var m := ComponentsFound(paths, shp, isCompanion, auxes[..a]);
      ComponentsFound(paths, shp, isCompanion, auxes[..a + 1]) == if j >= 0 then m[auxes[a].extension := paths[j]] else m
    ensures var r := FirstMissingMandatory(paths, isCompanion, auxes[..a]);
      FirstMissingMandatory(paths, isCompanion, auxes[..a + 1]) ==
        if r.None? && auxes[a].mandatory && FirstCompanion(paths, isCompanion, auxes[a].extension) < 0
        then Some(auxes[a].extension) else r
  {
    assert auxes[..a + 1][..a] == auxes[..a];
  }

  /** The inner `for path in possible_files ... else` loop: the index of the first path
      that passes `isComponent` (for the shapefile: same base name, ends with the
      extension), or -1 when the loop runs into its `else`. */
  method FindComponent(possibleFiles: seq<string>, isComponent: string -> bool) returns (index: int)
    ensures index == FirstIndexWhere(possibleFiles, isComponent)
  {
    index := 0;
    while index < |possibleFiles|
      invariant 0 <= index <= |possibleFiles|
      invariant forall j :: 0 <= j < index ==> !isComponent(possibleFiles[j])
    {
      if isComponent(possibleFiles[index]) {
        FirstIndexWhereIs(possibleFiles, isComponent, index);
        return;
      }
      index := index + 1;
    }
    FirstIndexWhereIs(possibleFiles, isComponent, -1);
    index := -1;
  }

  /** Only `dbf` and `shx` are mandatory: with any companion test, a missing `dbf` is
      reported first, then a missing `shx`, and nothing else is rejected. */
  lemma ComponentsOfShapefileVerdict(paths: seq<string>, shp: string, isCompanion: string -> string -> bool)
    ensures var r := ComponentsOfShapefile(paths, shp, isCompanion);
      var dbf := FirstCompanion(paths, isCompanion, "dbf");
      var shx := FirstCompanion(paths, isCompanion, "shx");
      && (r.Ok? <==> dbf >= 0 && shx >= 0)
      && (dbf < 0 ==> r == Err(ValidationError(MandatoryComponentMissing("dbf"))))
      && (dbf >= 0 && shx < 0 ==> r == Err(ValidationError(MandatoryComponentMissing("shx"))))
  {
    var m := FirstMissingMandatory(paths, isCompanion, ShapefileAdditional);
    FirstMissingMandatorySpec(paths, isCompanion, ShapefileAdditional);
    assert ShapefileAdditional[0] == ShapefileAux("dbf", true);
    assert ShapefileAdditional[1] == ShapefileAux("shx", true);
    if m.Some? {
      var i :| (0 <= i < |ShapefileAdditional| && ShapefileAdditional[i].mandatory
        && m.value == ShapefileAdditional[i].extension
        && FirstCompanion(paths, isCompanion, ShapefileAdditional[i].extension) < 0
        && forall j :: 0 <= j < i && ShapefileAdditional[j].mandatory ==>
             FirstCompanion(paths, isCompanion, ShapefileAdditional[j].extension) >= 0);
      assert i < 2;
    }
  }

  /** The extensions of `shapefile_additional`. */
  lemma ShapefileAdditionalExtensions(k: string)
    ensures HasAux(ShapefileAdditional, k) <==> k in {"dbf", "shx", "prj", "xml", "sld"}
  {
    if k in {"dbf", "shx", "prj", "xml", "sld"} {
      assert k == ShapefileAdditional[0].extension || k == ShapefileAdditional[1].extension
        || k == ShapefileAdditional[2].extension || k == ShapefileAdditional[3].extension
        || k == ShapefileAdditional[4].extension;
    }
  }

  /** With any companion test, an accepted result holds `shp`, `dbf` and `shx`, and one of
      `prj`, `xml`, `sld` exactly when a companion for it exists; every key but `shp` maps
      to the first companion for it. */
  lemma ComponentsOfShapefileValues(paths: seq<string>, shp: string, isCompanion: string -> string -> bool)
    requires ComponentsOfShapefile(paths, shp, isCompanion).Ok?
    ensures var m := ComponentsOfShapefile(paths, shp, isCompanion).value;
      && (forall k :: k in m <==> (k in {"shp", "dbf", "shx"} ||
            (k in {"prj", "xml", "sld"} && FirstCompanion(paths, isCompanion, k) >= 0)))
      && m["shp"] == shp
      && (forall k :: k in m && k != "shp" ==>
            0 <= FirstCompanion(paths, isCompanion, k) && m[k] == paths[FirstCompanion(paths, isCompanion, k)])
  {
    ComponentsOfShapefileVerdict(paths, shp, isCompanion);
    ComponentsFoundSpec(paths, shp, isCompanion, ShapefileAdditional);
    forall k ensures HasAux(ShapefileAdditional, k) <==> k in {"dbf", "shx", "prj", "xml", "sld"} {
      ShapefileAdditionalExtensions(k);
    }
  }

  /** The errors: more than one `.shp` name is rejected, none fails on `shp_files[0]`,
      and otherwise a missing `dbf` is reported before a missing `shx`. */
  lemma ShapefileComponentsErrors(possibleFiles: seq<string>)
    ensures ShapefileComponentsOf(possibleFiles) == Err(ValidationError(MultipleShapefiles)) <==>
      exists i, j :: 0 <= i < j < |possibleFiles| && IsShpName(possibleFiles[i]) && IsShpName(possibleFiles[j])
    ensures ShapefileComponentsOf(possibleFiles) == Err(IndexError) <==>
      forall i :: 0 <= i < |possibleFiles| ==> !IsShpName(possibleFiles[i])
    ensures ShapefileComponentsOf(possibleFiles).Err? ==> (ShapefileComponentsOf(possibleFiles).error in
      {ValidationError(MultipleShapefiles), IndexError,
       ValidationError(MandatoryComponentMissing("dbf")), ValidationError(MandatoryComponentMissing("shx"))})
  {
    FilterMoreThanOne(possibleFiles, IsShpName);
    var shpFiles := Filter(possibleFiles, IsShpName);
    if |shpFiles| == 1 {
      ComponentsOfShapefileVerdict(possibleFiles, shpFiles[0], CompanionsOf(Stem(shpFiles[0])));
    }
  }

  /** A list with a single `.shp` name is judged by the companions of that name. */
  lemma ShapefileComponentsOfOnlyShp(possibleFiles: seq<string>, k: nat, shp: string)
    requires 0 <= k < |possibleFiles| && possibleFiles[k] == shp && IsShpName(shp)
    requires forall i :: 0 <= i < |possibleFiles| && IsShpName(possibleFiles[i]) ==> i == k
    ensures ShapefileComponentsOf(possibleFiles) == ComponentsOfShapefile(possibleFiles, shp, CompanionsOf(Stem(shp)))
  {
    FilterMoreThanOne(possibleFiles, IsShpName);
    var shpFiles := Filter(possibleFiles, IsShpName);
    assert shp in shpFiles;
    assert shpFiles[0] == shp;
  }

  /** The list is accepted exactly when it holds one `.shp` name and `dbf` and `shx`
      companions of it; a missing `dbf` (or, with a `dbf`, a missing `shx`) is reported
      by name. */
  lemma ShapefileComponentsAccepted(possibleFiles: seq<string>, k: nat, shp: string)
    requires 0 <= k < |possibleFiles| && possibleFiles[k] == shp && IsShpName(shp)
    requires forall i :: 0 <= i < |possibleFiles| && IsShpName(possibleFiles[i]) ==> i == k
    ensures var r := ShapefileComponentsOf(possibleFiles);
      var dbf := FirstCompanion(possibleFiles, CompanionsOf(Stem(shp)), "dbf");
      var shx := FirstCompanion(possibleFiles, CompanionsOf(Stem(shp)), "shx");
      && (r.Ok? <==> dbf >= 0 && shx >= 0)
      && (dbf < 0 ==> r == Err(ValidationError(MandatoryComponentMissing("dbf"))))
      && (dbf >= 0 && shx < 0 ==> r == Err(ValidationError(MandatoryComponentMissing("shx"))))
      && (r.Ok? ==> r.value["shp"] == shp)
  {
    ShapefileComponentsOfOnlyShp(possibleFiles, k, shp);
    ComponentsOfShapefileVerdict(possibleFiles, shp, CompanionsOf(Stem(shp)));
  }

  /** An accepted result maps `shp` to the shapefile and every other key, one of the five
      companion extensions, to the first input name that ends with it and has the
      shapefile's base name; `dbf` and `shx` are always present, the others only when
      such a name exists. */
  lemma ShapefileComponentsValues(possibleFiles: seq<string>, m: map<string, string>)
    requires ShapefileComponentsOf(possibleFiles) == Ok(m)
    ensures "shp" in m && IsShpName(m["shp"])
    ensures forall k :: k in m <==> (k in {"shp", "dbf", "shx"} ||
      (k in {"prj", "xml", "sld"} && FirstCompanion(possibleFiles, CompanionsOf(Stem(m["shp"])), k) >= 0))
    ensures forall k :: k in m && k != "shp" ==> (0 <= FirstCompanion(possibleFiles, CompanionsOf(Stem(m["shp"])), k)
      && m[k] == possibleFiles[FirstCompanion(possibleFiles, CompanionsOf(Stem(m["shp"])), k)])
  {
    var shpFiles := Filter(possibleFiles, IsShpName);
    ComponentsOfShapefileValues(possibleFiles, shpFiles[0], CompanionsOf(Stem(shpFiles[0])));
  }

  /** `FirstCompanion` for a base name: the first path with that base name that ends
      with the extension, or -1 when there is none. */
  lemma FirstCompanionOf(paths: seq<string>, baseName: string, extension: string)
    ensures var i := FirstCompanion(paths, CompanionsOf(baseName), extension);
      && (0 <= i ==> i < |paths| && IsCompanion(paths[i], baseName, extension))
      && (forall j :: 0 <= j < |paths| && (i < 0 || j < i) ==> !IsCompanion(paths[j], baseName, extension))
  {
    var p := CompanionsOf(baseName)(extension);
    var i := FirstIndexWhere(paths, p);
    forall j | 0 <= j < |paths| && (i < 0 || j < i) ensures !IsCompanion(paths[j], baseName, extension) {
      assert !p(paths[j]);
    }
  }

  // ---------------------------------------------------------------------
  // Handler constructors
  // ---------------------------------------------------------------------

  /** `ZippedFileHandler.__init__`: the shapefile components among the archive's members. */
  method ZippedFileHandlerInit(zipFile: UploadedFile) returns (r: Result<map<string, string>>)
    ensures !zipFile.isZip ==> r == Err(BadZipFile)
    ensures zipFile.isZip ==> r == ShapefileComponentsOf(MemberNames(zipFile.members))
  {
    if !zipFile.isZip {
      return Err(BadZipFile);
    }
    var zipContents := MemberNames(zipFile.members);
    r := ValidateShapefileComponents(zipContents);
  }

  predicate IsKmlMember(m: ArchiveMember) { UploadHandlers.IsKmlMemberName(m.name) }

  predicate IsNotKmlName(name: string) { !UploadHandlers.IsKmlMemberName(name) }

  /** `KmzHandler.__init__`, returning the `kml_zip_path` it keeps. */
  function KmzHandlerInit(kmzFile: UploadedFile): (r: Result<string>)
    ensures !kmzFile.isZip ==> r == Err(ValidationError(InvalidKmzFile))
  {
    if !kmzFile.isZip then Err(ValidationError(InvalidKmzFile))
    else
      var kmlFiles := Filter(kmzFile.members, IsKmlMember);
      if |kmlFiles| == 0 then Err(ValidationError(NoKmlInKmz))
      else if |kmlFiles| > 1 then Err(ValidationError(MultipleKmlInKmz))
      else
        var otherComponents := Filter(MemberNames(kmzFile.members), IsNotKmlName);
        match ValidateKml(kmlFiles[0].kml, otherComponents)
        case Err(e) => Err(e)
        case Ok(_) => Ok(kmlFiles[0].name)
  }

  /** The names a kmz's kml is validated against: exactly its members not ending in `.kml`. */
  predicate IsOtherComponents(members: seq<ArchiveMember>, others: seq<string>) {
    && (forall i :: 0 <= i < |others| ==> others[i] in MemberNames(members) && IsNotKmlName(others[i]))
    && (forall i :: 0 <= i < |members| && IsNotKmlName(members[i].name) ==> members[i].name in others)
  }

  /** An archive is rejected for having no `.kml` member exactly when it has none. */
  lemma KmzWithoutKml(kmzFile: UploadedFile)
    requires kmzFile.isZip
    ensures (forall i :: 0 <= i < |kmzFile.members| ==> !IsKmlMember(kmzFile.members[i])) <==>
      KmzHandlerInit(kmzFile) == Err(ValidationError(NoKmlInKmz))
  {
    var kmlFiles := Filter(kmzFile.members, IsKmlMember);
    if |kmlFiles| != 0 {
      assert kmlFiles[0] in kmzFile.members;
    }
  }

  /** An archive is rejected for having several `.kml` members exactly when it has two. */
  lemma KmzWithSeveralKml(kmzFile: UploadedFile)
    requires kmzFile.isZip
    ensures (exists i, j :: 0 <= i < j < |kmzFile.members| && IsKmlMember(kmzFile.members[i]) && IsKmlMember(kmzFile.members[j])) <==>
      KmzHandlerInit(kmzFile) == Err(ValidationError(MultipleKmlInKmz))
  {
    FilterMoreThanOne(kmzFile.members, IsKmlMember);
    var kmlFiles := Filter(kmzFile.members, IsKmlMember);
    if |kmlFiles| == 1 {
      var otherComponents := Filter(MemberNames(kmzFile.members), IsNotKmlName);
      var validated := ValidateKml(kmlFiles[0].kml, otherComponents);
      assert validated.Err? ==> validated.error != ValidationError(MultipleKmlInKmz);
    }
  }

  /** The one `.kml` member of an archive that has exactly one. */
  predicate IsOnlyKml(members: seq<ArchiveMember>, i: int) {
    && 0 <= i < |members| && IsKmlMember(members[i])
    && forall j :: 0 <= j < |members| && j != i ==> !IsKmlMember(members[j])
  }

  /** An archive with exactly one `.kml` member is judged by that member's document,
      validated against the names of the other members. */
  lemma KmzHandlerInitOnlyKml(kmzFile: UploadedFile, i: int, others: seq<string>)
    requires kmzFile.isZip && IsOnlyKml(kmzFile.members, i) && IsOtherComponents(kmzFile.members, others)
    ensures KmzHandlerInit(kmzFile).Ok? <==> ValidateKml(kmzFile.members[i].kml, others).Ok?
    ensures KmzHandlerInit(kmzFile).Ok? ==> KmzHandlerInit(kmzFile).value == kmzFile.members[i].name
  {
    var ms := kmzFile.members;
    var kmlFiles := Filter(ms, IsKmlMember);
    var names := Filter(MemberNames(ms), IsNotKmlName);
    FilterMoreThanOne(ms, IsKmlMember);
    assert ms[i] in kmlFiles;
    assert |kmlFiles| == 1;
    assert kmlFiles[0] == ms[i];
    assert forall x :: x in names <==> x in others;
  }

  /** A kmz is accepted exactly when it is an archive with one `.kml` member whose
      document validates against the other members' names, and what is kept is that
      member's name. */
  lemma KmzHandlerInitAccepted(kmzFile: UploadedFile)
    requires kmzFile.isZip
    ensures KmzHandlerInit(kmzFile).Ok? <==> exists i, others :: (IsOnlyKml(kmzFile.members, i)
      && IsOtherComponents(kmzFile.members, others) && ValidateKml(kmzFile.members[i].kml, others).Ok?)
    ensures KmzHandlerInit(kmzFile).Ok? ==> exists i :: (IsOnlyKml(kmzFile.members, i)
      && KmzHandlerInit(kmzFile).value == kmzFile.members[i].name)
  {
    var ms := kmzFile.members;
    var kmlFiles := Filter(ms, IsKmlMember);
    var others := Filter(MemberNames(ms), IsNotKmlName);
    FilterMoreThanOne(ms, IsKmlMember);
    if |kmlFiles| == 1 {
      var i := FirstIndexWhere(ms, IsKmlMember);
      forall j | 0 <= j < |ms| && j != i ensures !IsKmlMember(ms[j]) {
        if j > i {
          assert !(IsKmlMember(ms[i]) && IsKmlMember(ms[j]));
        }
      }
      assert IsOtherComponents(ms, others);
      KmzHandlerInitOnlyKml(kmzFile, i, others);
    }
    forall i, others' | IsOnlyKml(ms, i) && IsOtherComponents(ms, others')
      ensures KmzHandlerInit(kmzFile).Ok? <==> ValidateKml(ms[i].kml, others').Ok?
    {
      KmzHandlerInitOnlyKml(kmzFile, i, others');
    }
  }

  /** A kmz holding one kml whose single overlay names the image archived beside it is
      accepted. */
  lemma KmzWithGroundOverlayAccepted(kmlName: string, imageName: string, doc: KmlDoc, overlay: GroundOverlay, image: KmlParse)
    requires doc.groundOverlays == [overlay]
    requires UploadHandlers.IsKmlMemberName(kmlName) && !UploadHandlers.IsKmlMemberName(imageName)
    requires overlay.href == Some(imageName)
    ensures KmzHandlerInit(UploadedFile("doc.kmz", true,
      [ArchiveMember(kmlName, Parsed(doc)), ArchiveMember(imageName, image)], Unparsable)) == Ok(kmlName)
  {
    var ms := [ArchiveMember(kmlName, Parsed(doc)), ArchiveMember(imageName, image)];
    assert MemberNames(ms) == [kmlName, imageName];
    assert Filter(ms, IsKmlMember) == [ms[0]] by {
      assert Filter(ms[1..], IsKmlMember) == [];
    }
    assert Filter(MemberNames(ms), IsNotKmlName) == [imageName] by {
      assert MemberNames(ms)[1..] == [imageName];
    }
  }

  /** `len(result)`: the pair of a document and its image has two elements, and a bare
      document counts the child nodes of its root. */
  function ResultLength(result: KmlValidation): nat {
    match result
    case VectorKml(doc) => doc.rootChildren
    case RasterKml(_, _) => 2
  }

  /** `KmlHandler.__init__`, given the uploaded files other than the base file. When
      `len(result) > 1` the constructor looks for the file named `result[1]` with
      `[i for i in other_files if i.name == overlay_name][0]`: `other_files` holds names,
      so `.name` raises `AttributeError` on the first one, and without any the empty
      list raises `IndexError`. */
  function KmlHandlerInit(kmlFile: UploadedFile, otherFiles: seq<UploadedFile>): (r: Result<map<string, UploadedFile>>)
    ensures r.Ok? ==> r.value == map["kml" := kmlFile]
  {
    var otherNames := Names(otherFiles);
    match ValidateKml(kmlFile.kml, otherNames)
    case Err(e) => Err(e)
    case Ok(result) =>
      if ResultLength(result) > 1 then
        if otherNames == [] then Err(IndexError) else Err(AttributeError)
      else Ok(map["kml" := kmlFile])
  }

  /** Only a kml without ground overlays whose root has at most one child node passes;
      a root with more children fails on the lookup, and so does an overlay that names
      an uploaded file. */
  lemma KmlHandlerOutcomes(kmlFile: UploadedFile, otherFiles: seq<UploadedFile>)
    ensures KmlHandlerInit(kmlFile, otherFiles).Ok? <==>
      kmlFile.kml.Parsed? && |kmlFile.kml.doc.groundOverlays| == 0 && kmlFile.kml.doc.rootChildren <= 1
    ensures kmlFile.kml.Parsed? && |kmlFile.kml.doc.groundOverlays| == 0 && kmlFile.kml.doc.rootChildren > 1 ==>
      KmlHandlerInit(kmlFile, otherFiles) == if otherFiles == [] then Err(IndexError) else Err(AttributeError)
    ensures kmlFile.kml.Parsed? && |kmlFile.kml.doc.groundOverlays| == 1 ==>
      var overlay := kmlFile.kml.doc.groundOverlays[0];
      (overlay.href.Some? && exists i :: 0 <= i < |otherFiles| && otherFiles[i].name == overlay.href.value) ==>
        KmlHandlerInit(kmlFile, otherFiles) == Err(AttributeError)
  {
    if kmlFile.kml.Parsed? && |kmlFile.kml.doc.groundOverlays| == 1 {
      var overlay := kmlFile.kml.doc.groundOverlays[0];
      if overlay.href.Some? && exists i :: 0 <= i < |otherFiles| && otherFiles[i].name == overlay.href.value {
        var i :| 0 <= i < |otherFiles| && otherFiles[i].name == overlay.href.value;
        assert Names(otherFiles)[i] == overlay.href.value;
      }
    }
  }

  /** Whether every component path names one of the uploaded files. */
  predicate AllNamed(resources: map<string, string>, formFiles: seq<UploadedFile>) {
    forall k :: k in resources ==> exists i :: 0 <= i < |formFiles| && formFiles[i].name == resources[k]
  }

  /** For each component, the first uploaded file carrying its path as name. */
  function FilesNamed(resources: map<string, string>, formFiles: seq<UploadedFile>): (m: map<string, UploadedFile>)
    ensures forall k :: k in m <==> k in resources && exists i :: 0 <= i < |formFiles| && formFiles[i].name == resources[k]
    ensures forall k :: k in m ==> exists i :: (0 <= i < |formFiles| && m[k] == formFiles[i]
      && formFiles[i].name == resources[k]
      && forall j :: 0 <= j < i ==> formFiles[j].name != resources[k])
  {
    map k | k in resources && FirstIndexOf(formFiles, NameOf, resources[k]) >= 0 ::
      formFiles[FirstIndexOf(formFiles, NameOf, resources[k])]
  }

  /** The matching loop of `ShapefileHandler.__init__`: over the components in dictionary
      order, and for each over the uploaded files until one has the component's path as
      its name; a component without such a file raises `RuntimeError`. */
  method MatchUploadedFiles(resources: map<string, string>, formFiles: seq<UploadedFile>)
    returns (r: Result<map<string, UploadedFile>>)
    ensures r.Ok? <==> AllNamed(resources, formFiles)
    ensures r.Ok? ==> r.value == FilesNamed(resources, formFiles)
    ensures r.Err? ==> exists k :: (k in resources && r.error == RuntimeError(UploadedFileNotFound(resources[k]))
      && forall i :: 0 <= i < |formFiles| ==> formFiles[i].name != resources[k])
  {
    var files: map<string, UploadedFile> := map[];
    var remaining := resources.Keys;
    while remaining != {}
      invariant remaining <= resources.Keys
      invariant forall k :: k in resources && k !in remaining ==> FirstIndexOf(formFiles, NameOf, resources[k]) >= 0
      invariant files == FilesNamedAmong(resources, formFiles, resources.Keys - remaining)
      decreases remaining
    {
      var extension :| extension in remaining;
      var path := resources[extension];
      var i := FindFileNamed(formFiles, path);
      if i < 0 {
        return Err(RuntimeError(UploadedFileNotFound(path)));
      }
      FilesNamedAmongStep(resources, formFiles, resources.Keys - remaining, extension);
      assert resources.Keys - (remaining - {extension}) == (resources.Keys - remaining) + {extension};
      files := files[extension := formFiles[i]];
      remaining := remaining - {extension};
    }
    assert resources.Keys - remaining == resources.Keys;
    assert AllNamed(resources, formFiles) by {
      forall k | k in resources
        ensures exists i :: 0 <= i < |formFiles| && formFiles[i].name == resources[k]
      {
        assert formFiles[FirstIndexOf(formFiles, NameOf, resources[k])].name == resources[k];
      }
    }
    r := Ok(files);
  }

  /** `FilesNamed` restricted to the components in `keys`. */
  function FilesNamedAmong(resources: map<string, string>, formFiles: seq<UploadedFile>, keys: set<string>): map<string, UploadedFile> {
    map k | k in resources && k in keys && FirstIndexOf(formFiles, NameOf, resources[k]) >= 0 ::
      formFiles[FirstIndexOf(formFiles, NameOf, resources[k])]
  }

  lemma FilesNamedAmongStep(resources: map<string, string>, formFiles: seq<UploadedFile>, keys: set<string>, extension: string)
    requires extension in resources
    ensures var i := FirstIndexOf(formFiles, NameOf, resources[extension]);
      var m := FilesNamedAmong(resources, formFiles, keys);
      FilesNamedAmong(resources, formFiles, keys + {extension}) == if i >= 0 then m[extension := formFiles[i]] else m
  {
  }

  /** The inner `for file in form_files` loop of `ShapefileHandler.__init__`: the index
      of the first uploaded file named `path`, or -1 when the loop ends without one. */
  method FindFileNamed(formFiles: seq<UploadedFile>, path: string) returns (index: int)
    ensures index == FirstIndexOf(formFiles, NameOf, path)
  {
    index := 0;
    while index < |formFiles|
      invariant 0 <= index <= |formFiles|
      invariant forall j :: 0 <= j < index ==> formFiles[j].name != path
    {
      if formFiles[index].name == path {
        FirstIndexOfIs(formFiles, NameOf, path, index);
        return;
      }
      index := index + 1;
    }
    FirstIndexOfIs(formFiles, NameOf, path, -1);
    index := -1;
  }

  /** `ShapefileHandler.__init__`: the components of the uploaded files' names, each
      matched back to the first uploaded file of that name. */
  method ShapefileHandlerInit(formFiles: seq<UploadedFile>) returns (r: Result<map<string, UploadedFile>>)
    ensures ShapefileComponentsOf(Names(formFiles)).Err? ==> r == Err(ShapefileComponentsOf(Names(formFiles)).error)
    ensures ShapefileComponentsOf(Names(formFiles)).Ok? ==>
      r == Ok(FilesNamed(ShapefileComponentsOf(Names(formFiles)).value, formFiles))
  {
    var fileNames := Names(formFiles);
    var resources := ValidateShapefileComponents(fileNames);
    if resources.Err? {
      return Err(resources.error);
    }
    r := MatchUploadedFiles(resources.value, formFiles);
  }

  // ---------------------------------------------------------------------
  // save_django_files and save_zipped_file
  // ---------------------------------------------------------------------

  /** `os.path.join(destination_dir, name)` as a function of the name. */
  function JoinOnto(destinationDir: string): string -> string {
    name => Join(destinationDir, name)
  }

  /** The `result` dictionary of the save functions after `names`: each name's extension
      maps to the name joined onto the destination, a later name overwriting an earlier
      one with the same extension. */
  function ExtensionPaths(destinationDir: string, names: seq<string>): map<string, string> {
    LastByKey(names, GetExtension, JoinOnto(destinationDir))
  }

  /** The keys of `ExtensionPaths` are the names' extensions, and each maps to the
      destination path of the last name with that extension. */
  lemma ExtensionPathsSpec(destinationDir: string, names: seq<string>)
    ensures forall k :: k in ExtensionPaths(destinationDir, names) <==>
      exists i :: 0 <= i < |names| && GetExtension(names[i]) == k
    ensures forall k :: k in ExtensionPaths(destinationDir, names) ==> exists i :: (0 <= i < |names|
      && GetExtension(names[i]) == k && ExtensionPaths(destinationDir, names)[k] == Join(destinationDir, names[i])
      && forall j :: i < j < |names| ==> GetExtension(names[j]) != k)
  {
    LastByKeySpec(names, GetExtension, JoinOnto(destinationDir));
  }

  /** `save_django_files`, without the writing: the loop over the files that records
      each one's destination under its extension. */
  method SaveDjangoFiles(files: seq<UploadedFile>, destinationDir: string) returns (result: map<string, string>)
    ensures result == ExtensionPaths(destinationDir, Names(files))
  {
    result := FillByKey(Names(files), GetExtension, JoinOnto(destinationDir));
  }

  /** `save_zipped_file`, without the extraction: a file that is not an archive raises
      `BadZipfile`; otherwise the loop over the member names records each one's
      destination under its extension. */
  method SaveZippedFile(zippedFile: UploadedFile, destinationDir: string) returns (r: Result<map<string, string>>)
    ensures !zippedFile.isZip ==> r == Err(BadZipFile)
    ensures zippedFile.isZip ==> r == Ok(ExtensionPaths(destinationDir, MemberNames(zippedFile.members)))
  {
    if !zippedFile.isZip {
      return Err(BadZipFile);
    }
    var result := FillByKey(MemberNames(zippedFile.members), GetExtension, JoinOnto(destinationDir));
    r := Ok(result);
  }
}
