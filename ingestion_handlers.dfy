/** The preprocessing that geonode/upload/ingestionhandlers.py performs before
    data goes to the map server: the ingestion handler chosen for a set of
    paths, the shapefile components it keeps, the candidate layer name, and
    the conversion of a KML ground overlay's image into a GeoTIFF, reduced to
    the bounding box, the output path and the `gdal_translate` argument list. */
module IngestionHandlers {
  import opened PyStrings
  import opened Outcomes
  import opened Bundle
  import opened SeqSearch
  import UploadHandlers

  // ---------------------------------------------------------------------
  // Handlers, get_ingestion_handler and ShapefileIngestionHandler.__init__
  // ---------------------------------------------------------------------

  /** The handler objects; `base_paths` is the only state, and `__init__` alone sets it. */
  datatype IngestionHandler =
    | GenericIngestionHandler(basePaths: seq<string>)
    | ShapefileIngestionHandler(basePaths: seq<string>)

  /** For each shapefile component that some path carries, the first such path. */
  function FirstByExtension(paths: seq<string>, extensionOf: string -> string): map<string, string> {
    map k | k in UploadHandlers.ShapefileComponents && FirstIndexOf(paths, extensionOf, k) >= 0 ::
      paths[FirstIndexOf(paths, extensionOf, k)]
  }

  /** `p` is the first of `paths` with its own extension. */
  predicate IsFirstWithItsExtension(paths: seq<string>, extensionOf: string -> string, p: string) {
    0 <= FirstIndexOf(paths, extensionOf, extensionOf(p)) && p == paths[FirstIndexOf(paths, extensionOf, extensionOf(p))]
  }

  /** `basePaths` holds, in some order and once each, the first path of every extension in
      `extensions` that `paths` carries, and nothing else. */
  predicate BasePathsFor(paths: seq<string>, extensionOf: string -> string, extensions: set<string>, basePaths: seq<string>) {
    && (forall i :: 0 <= i < |basePaths| ==>
          extensionOf(basePaths[i]) in extensions && IsFirstWithItsExtension(paths, extensionOf, basePaths[i]))
    && (forall i, j :: 0 <= i < j < |basePaths| ==> extensionOf(basePaths[i]) != extensionOf(basePaths[j]))
    && (forall k :: k in extensions && FirstIndexOf(paths, extensionOf, k) >= 0 ==>
          exists i :: 0 <= i < |basePaths| && extensionOf(basePaths[i]) == k)
  }

  /** The base paths of a shapefile: those of all the shapefile components. */
  predicate AreBasePaths(paths: seq<string>, extensionOf: string -> string, basePaths: seq<string>) {
    BasePathsFor(paths, extensionOf, UploadHandlers.ShapefileComponents.Keys, basePaths)
  }

  /** Every mandatory shapefile component among `extensions` is carried by some path. */
  predicate MandatoryFound(paths: seq<string>, extensionOf: string -> string, extensions: set<string>) {
    forall k :: (k in UploadHandlers.ShapefileComponents && k in extensions
      && UploadHandlers.ShapefileComponents[k]) ==> FirstIndexOf(paths, extensionOf, k) >= 0
  }

  predicate HasMandatoryComponents(paths: seq<string>, extensionOf: string -> string) {
    MandatoryFound(paths, extensionOf, UploadHandlers.ShapefileComponents.Keys)
  }

  /** Handling one more extension appends its first path, if there is one. */
  lemma BasePathsStep(paths: seq<string>, extensionOf: string -> string, done: set<string>, basePaths: seq<string>, extension: string)
    requires BasePathsFor(paths, extensionOf, done, basePaths) && extension !in done
    ensures var i := FirstIndexOf(paths, extensionOf, extension);
      BasePathsFor(paths, extensionOf, done + {extension}, if i >= 0 then basePaths + [paths[i]] else basePaths)
  {
    var i := FirstIndexOf(paths, extensionOf, extension);
    var extensions := done + {extension};
    if i >= 0 {
      var next := basePaths + [paths[i]];
      forall j | 0 <= j < |next|
        ensures extensionOf(next[j]) in extensions && IsFirstWithItsExtension(paths, extensionOf, next[j])
      {
        if j < |basePaths| {
          assert next[j] == basePaths[j];
        }
      }
      forall j, l | 0 <= j < l < |next| ensures extensionOf(next[j]) != extensionOf(next[l]) {
        assert next[j] == basePaths[j];
        if l < |basePaths| {
          assert next[l] == basePaths[l];
        }
      }
      forall k | k in extensions && FirstIndexOf(paths, extensionOf, k) >= 0
        ensures exists j :: 0 <= j < |next| && extensionOf(next[j]) == k
      {
        if k == extension {
          assert extensionOf(next[|basePaths|]) == k;
        } else {
          var j :| 0 <= j < |basePaths| && extensionOf(basePaths[j]) == k;
          assert next[j] == basePaths[j];
        }
      }
    } else {
      forall k | k in extensions && FirstIndexOf(paths, extensionOf, k) >= 0
        ensures exists j :: 0 <= j < |basePaths| && extensionOf(basePaths[j]) == k
      {
        assert k != extension;
      }
    }
  }

  /** `ShapefileIngestionHandler.__init__`: the outer loop over `SHAPEFILE_COMPONENTS` in
      dictionary order, the inner loop stopping at the first path with the component's
      extension, and the error for a mandatory component no path carries. Which missing
      component is reported depends on the dictionary order. */
  method CollectBasePaths(paths: seq<string>, extensionOf: string -> string) returns (r: Result<seq<string>>)
    ensures r.Ok? <==> HasMandatoryComponents(paths, extensionOf)
    ensures r.Ok? ==> AreBasePaths(paths, extensionOf, r.value)
    ensures r.Err? ==> exists k :: (k in UploadHandlers.ShapefileComponents && UploadHandlers.ShapefileComponents[k]
      && FirstIndexOf(paths, extensionOf, k) < 0 && r.error == RuntimeError(ShapefileComponentNotFound(k)))
  {
    var basePaths: seq<string> := [];
    var remaining := UploadHandlers.ShapefileComponents.Keys;
    while remaining != {}
      invariant remaining <= UploadHandlers.ShapefileComponents.Keys
      invariant BasePathsFor(paths, extensionOf, UploadHandlers.ShapefileComponents.Keys - remaining, basePaths)
      invariant MandatoryFound(paths, extensionOf, UploadHandlers.ShapefileComponents.Keys - remaining)
      decreases remaining
    {
      var extension :| extension in remaining;
      var mandatory := UploadHandlers.ShapefileComponents[extension];
      var i := FindFirstWithExtension(paths, extensionOf, extension);
      BasePathsStep(paths, extensionOf, UploadHandlers.ShapefileComponents.Keys - remaining, basePaths, extension);
      assert UploadHandlers.ShapefileComponents.Keys - (remaining - {extension})
        == (UploadHandlers.ShapefileComponents.Keys - remaining) + {extension};
      if i >= 0 {
        basePaths := basePaths + [paths[i]];
      } else if mandatory {
        return Err(RuntimeError(ShapefileComponentNotFound(extension)));
      }
      remaining := remaining - {extension};
    }
    return Ok(basePaths);
  }

  /** The inner `for path in paths: ... break` loop. */
  method FindFirstWithExtension(paths: seq<string>, extensionOf: string -> string, extension: string)
    returns (index: int)
    ensures index == FirstIndexOf(paths, extensionOf, extension)
  {
    index := 0;
    while index < |paths|
      invariant 0 <= index <= |paths|
      invariant forall j :: 0 <= j < index ==> extensionOf(paths[j]) != extension
    {
      var pathExtension := extensionOf(paths[index]);
      if pathExtension == extension {
        FirstIndexOfIs(paths, extensionOf, extension, index);
        return;
      }
      index := index + 1;
    }
    FirstIndexOfIs(paths, extensionOf, extension, -1);
    index := -1;
  }

  /** Base paths are paths of the input, no two alike, and together they are
      exactly the first path of each component present. */
  lemma BasePathsAreFirstPaths(paths: seq<string>, extensionOf: string -> string, basePaths: seq<string>)
    requires AreBasePaths(paths, extensionOf, basePaths)
    ensures forall i :: 0 <= i < |basePaths| ==> basePaths[i] in paths
    ensures forall i, j :: 0 <= i < j < |basePaths| ==> basePaths[i] != basePaths[j]
    ensures forall p :: p in basePaths <==> p in FirstByExtension(paths, extensionOf).Values
  {
    var m := FirstByExtension(paths, extensionOf);
    forall p | p in basePaths ensures p in m.Values {
      var i :| 0 <= i < |basePaths| && basePaths[i] == p;
      assert m[extensionOf(p)] == p;
    }
    forall p | p in m.Values ensures p in basePaths {
      var k :| k in m && m[k] == p;
      var i :| 0 <= i < |basePaths| && extensionOf(basePaths[i]) == k;
      assert basePaths[i] == p;
    }
  }

  /** `get_ingestion_handler`: a `ShapefileIngestionHandler` when some path has the `shp`
      extension; otherwise `GenericIngestionHandler()`, which is called without the
      `paths` argument `__init__` requires, and so raises a `TypeError`. */
  method GetIngestionHandler(paths: seq<string>) returns (r: Result<IngestionHandler>)
    ensures r == Err(TypeError) <==> FirstIndexOf(paths, UploadHandlers.GetFileExtension, "shp") < 0
    ensures r.Ok? <==> HasMandatoryComponents(paths, UploadHandlers.GetFileExtension)
    ensures r.Ok? ==> (r.value.ShapefileIngestionHandler?
      && AreBasePaths(paths, UploadHandlers.GetFileExtension, r.value.basePaths))
    ensures r.Err? && r.error != TypeError ==> exists k :: ((k == "dbf" || k == "shx")
      && FirstIndexOf(paths, UploadHandlers.GetFileExtension, k) < 0
      && r.error == RuntimeError(ShapefileComponentNotFound(k)))
  {
    r := IngestionHandlerFor(paths, UploadHandlers.GetFileExtension);
  }

  /** `get_ingestion_handler` for any extension function. */
  method IngestionHandlerFor(paths: seq<string>, extensionOf: string -> string) returns (r: Result<IngestionHandler>)
    ensures r == Err(TypeError) <==> FirstIndexOf(paths, extensionOf, "shp") < 0
    ensures r.Ok? <==> HasMandatoryComponents(paths, extensionOf)
    ensures r.Ok? ==> (r.value.ShapefileIngestionHandler? && AreBasePaths(paths, extensionOf, r.value.basePaths))
    ensures r.Err? && r.error != TypeError ==> exists k :: ((k == "dbf" || k == "shx")
      && FirstIndexOf(paths, extensionOf, k) < 0 && r.error == RuntimeError(ShapefileComponentNotFound(k)))
  {
    var shp := FindFirstWithExtension(paths, extensionOf, "shp");
    MandatoryComponents();
    if shp >= 0 {
      var basePaths := CollectBasePaths(paths, extensionOf);
      if basePaths.Err? {
        return Err(basePaths.error);
      }
      return Ok(ShapefileIngestionHandler(basePaths.value));
    }
    return Err(TypeError);
  }

  /** The mandatory components are `shp`, `dbf` and `shx`. */
  lemma MandatoryComponents()
    ensures forall k :: k in UploadHandlers.ShapefileComponents && UploadHandlers.ShapefileComponents[k] <==>
      k == "shp" || k == "dbf" || k == "shx"
  {
  }

  // ---------------------------------------------------------------------
  // get_name
  // ---------------------------------------------------------------------

  /** The candidate that `get_name` hands to `get_valid_layer_name`: the stem of the
      first base path, when any base path is non-empty, else the empty name. */
  function CandidateName(basePaths: seq<string>): string {
    if exists i :: 0 <= i < |basePaths| && basePaths[i] != [] then Stem(basePaths[0]) else ""
  }

  /** The base name of a path is its candidate name followed by its extension. */
  lemma CandidateNameOfPath(p: string, rest: seq<string>)
    requires p != []
    ensures CandidateName([p] + rest) + SplitExt(Basename(p)).1 == Basename(p)
    ensures '/' !in CandidateName([p] + rest)
  {
    assert ([p] + rest)[0] == p;
  }

  /** The name of a shapefile handler is the stem of its first base path, which is a file
      with a shapefile component's extension. */
  lemma BasePathsName(paths: seq<string>, extensionOf: string -> string, basePaths: seq<string>)
    requires AreBasePaths(paths, extensionOf, basePaths)
    requires HasMandatoryComponents(paths, extensionOf)
    requires extensionOf("") !in UploadHandlers.ShapefileComponents
    ensures |basePaths| > 0
    ensures extensionOf(basePaths[0]) in UploadHandlers.ShapefileComponents
    ensures CandidateName(basePaths) == Stem(basePaths[0])
  {
    assert "shp" in UploadHandlers.ShapefileComponents.Keys && UploadHandlers.ShapefileComponents["shp"];
    assert exists i :: 0 <= i < |basePaths| && extensionOf(basePaths[i]) == "shp";
    assert basePaths[0] != [];
  }

  /** The empty path has no extension, so it is never a shapefile component. */
  lemma EmptyNameHasNoExtension()
    ensures UploadHandlers.GetFileExtension("") == ""
  {
    assert SplitExt("").0 + SplitExt("").1 == "";
  }

  // ---------------------------------------------------------------------
  // convert_kml_ground_overlay_to_geotiff (without the subprocess call)
  // ---------------------------------------------------------------------

  /** `GdalBoundingBox`: upper-left and lower-right corners, as the KML texts. */
  datatype GdalBoundingBox = GdalBoundingBox(ulx: string, uly: string, lrx: string, lry: string)

  /** The `LatLonBox` child named `param` of a ground overlay. */
  function LatLonBoxField(o: GroundOverlay, param: string): Option<string> {
    if param == "north" then o.north
    else if param == "south" then o.south
    else if param == "east" then o.east
    else if param == "west" then o.west
    else None
  }

  predicate HasField(param: string, o: GroundOverlay) {
    o.underDocument && LatLonBoxField(o, param).Some?
  }

  /** `_extract_bbox_param`: the first text the XPath
      `kml:Document/kml:GroundOverlay/kml:LatLonBox/kml:<param>/text()` selects; indexing
      the empty result raises `IndexError`. */
  function ExtractBboxParam(doc: KmlDoc, param: string): (r: Result<string>)
    ensures r.Err? <==> forall i :: 0 <= i < |doc.groundOverlays| ==> !HasField(param, doc.groundOverlays[i])
    ensures r.Err? ==> r.error == IndexError
    ensures r.Ok? ==> exists i :: (0 <= i < |doc.groundOverlays| && HasField(param, doc.groundOverlays[i])
      && r.value == LatLonBoxField(doc.groundOverlays[i], param).value
      && forall j :: 0 <= j < i ==> !HasField(param, doc.groundOverlays[j]))
  {
    var i := FirstIndexWhere(doc.groundOverlays, o => HasField(param, o));
    if i < 0 then Err(IndexError) else Ok(LatLonBoxField(doc.groundOverlays[i], param).value)
  }

  /** The bounding box: `ulx` is west, `uly` north, `lrx` east and `lry` south. */
  function BoundingBox(doc: KmlDoc): Result<GdalBoundingBox> {
    var west := ExtractBboxParam(doc, "west");
    var north := ExtractBboxParam(doc, "north");
    var east := ExtractBboxParam(doc, "east");
    var south := ExtractBboxParam(doc, "south");
    if west.Err? then Err(west.error)
    else if north.Err? then Err(north.error)
    else if east.Err? then Err(east.error)
    else if south.Err? then Err(south.error)
    else Ok(GdalBoundingBox(west.value, north.value, east.value, south.value))
  }

  /** The GeoTIFF written next to the image: its directory, its stem and `.tif`. */
  function OutputPath(otherFilePath: string): string {
    var (dirname, basename) := Split(otherFilePath);
    Join(dirname, SplitExt(basename).0 + ".tif")
  }

  /** The `gdal_translate` invocation; KML always uses EPSG:4326. */
  function GdalTranslateCommand(bbox: GdalBoundingBox, input: string, output: string): seq<string> {
    ["gdal_translate", "-of", "GTiff", "-a_srs", "EPSG:4326",
     "-a_ullr", bbox.ulx, bbox.uly, bbox.lrx, bbox.lry, input, output]
  }

  /** What the conversion would run, and the path it returns. */
  datatype Conversion = Conversion(command: seq<string>, outputPath: string)

  /** `convert_kml_ground_overlay_to_geotiff`, given what parsing the KML file yields;
      the file read and the subprocess call are not modelled. */
  function ConvertGroundOverlay(kml: KmlParse, otherFilePath: string): (r: Result<Conversion>)
    ensures r.Ok? <==> (kml.Parsed? && ExtractBboxParam(kml.doc, "west").Ok?
      && ExtractBboxParam(kml.doc, "north").Ok? && ExtractBboxParam(kml.doc, "east").Ok?
      && ExtractBboxParam(kml.doc, "south").Ok?)
    ensures r.Err? ==> r.error == MalformedKml || r.error == IndexError
    ensures r.Ok? ==> r.value.outputPath == OutputPath(otherFilePath)
  {
    if kml.Unparsable? then Err(MalformedKml)
    else
      var bbox := BoundingBox(kml.doc);
      if bbox.Err? then Err(bbox.error)
      else
        var output := OutputPath(otherFilePath);
        Ok(Conversion(GdalTranslateCommand(bbox.value, otherFilePath, output), output))
  }

  /** The argument that follows the first occurrence of `flag`, if any. */
  function OptionValue(command: seq<string>, flag: string): Option<string> {
    var i := FirstIndexOf(command, (a: string) => a, flag);
    if 0 <= i && i + 1 < |command| then Some(command[i + 1]) else None
  }

  /** The four arguments that follow the first `-a_ullr`, if there are four. */
  function UllrOf(command: seq<string>): Option<GdalBoundingBox> {
    var i := FirstIndexOf(command, (a: string) => a, "-a_ullr");
    if 0 <= i && i + 4 < |command| then
      Some(GdalBoundingBox(command[i + 1], command[i + 2], command[i + 3], command[i + 4]))
    else None
  }

  /** Reading the command back recovers its options: the program, the GeoTIFF output
      format and the EPSG:4326 spatial reference. */
  lemma CommandOptions(bbox: GdalBoundingBox, input: string, output: string)
    ensures GdalTranslateCommand(bbox, input, output)[0] == "gdal_translate"
    ensures OptionValue(GdalTranslateCommand(bbox, input, output), "-of") == Some("GTiff")
    ensures OptionValue(GdalTranslateCommand(bbox, input, output), "-a_srs") == Some("EPSG:4326")
  {
    FirstIndexOfIs(GdalTranslateCommand(bbox, input, output), (a: string) => a, "-of", 1);
    FirstIndexOfIs(GdalTranslateCommand(bbox, input, output), (a: string) => a, "-a_srs", 3);
  }

  /** Reading the command back recovers the corners, in the order west, north, east,
      south, and ends with the input and the output. */
  lemma CommandCorners(bbox: GdalBoundingBox, input: string, output: string)
    ensures UllrOf(GdalTranslateCommand(bbox, input, output)) == Some(bbox)
    ensures |GdalTranslateCommand(bbox, input, output)| == 12
    ensures GdalTranslateCommand(bbox, input, output)[10..] == [input, output]
  {
    FirstIndexOfIs(GdalTranslateCommand(bbox, input, output), (a: string) => a, "-a_ullr", 5);
  }

  /** A successful conversion runs `gdal_translate` with the overlay's corners, from the
      image to the output path. */
  lemma ConversionCommand(doc: KmlDoc, otherFilePath: string, conversion: Conversion)
    requires ConvertGroundOverlay(Parsed(doc), otherFilePath) == Ok(conversion)
    ensures UllrOf(conversion.command) == Some(GdalBoundingBox(ExtractBboxParam(doc, "west").value,
      ExtractBboxParam(doc, "north").value, ExtractBboxParam(doc, "east").value,
      ExtractBboxParam(doc, "south").value))
    ensures conversion.command[10..] == [otherFilePath, OutputPath(otherFilePath)]
    ensures conversion.command == GdalTranslateCommand(GdalBoundingBox(ExtractBboxParam(doc, "west").value,
      ExtractBboxParam(doc, "north").value, ExtractBboxParam(doc, "east").value,
      ExtractBboxParam(doc, "south").value), otherFilePath, OutputPath(otherFilePath))
  {
    CommandCorners(BoundingBox(doc).value, otherFilePath, OutputPath(otherFilePath));
  }

  /** The output lies in the image's directory. */
  lemma OutputPathDirectory(otherFilePath: string)
    ensures Dirname(OutputPath(otherFilePath)) == Dirname(otherFilePath)
  {
    DirnameShape(otherFilePath);
    OutputPathIs(otherFilePath);
    DirnameOfJoin(Dirname(otherFilePath), Stem(otherFilePath) + ".tif");
  }

  /** The output path written with the image's own directory and stem. */
  lemma OutputPathIs(otherFilePath: string)
    ensures OutputPath(otherFilePath) == Join(Dirname(otherFilePath), Stem(otherFilePath) + ".tif")
  {
  }

  /** The output's base name is the image's stem with `.tif`. */
  lemma OutputPathBasename(otherFilePath: string)
    ensures Basename(OutputPath(otherFilePath)) == Stem(otherFilePath) + ".tif"
  {
    OutputPathIs(otherFilePath);
    BasenameOfJoin(Dirname(otherFilePath), Stem(otherFilePath) + ".tif");
  }

  /** A stem holding more than dots, followed by `.tif`, splits back into the two. */
  lemma TifName(stem: string)
    requires HasNonDot(stem) && '/' !in stem
    ensures ExtensionDotAt(stem + ".tif", |stem|)
    ensures SplitExt(stem + ".tif") == (stem, ".tif")
  {
    var name := stem + ".tif";
    assert name[..|stem|] == stem;
    BasenameOfPlainName(name);
    ExtensionAtDot(name, |stem|);
  }

  /** When the image's stem holds more than dots, `.tif` is the output's extension and the
      stem is the image's. */
  lemma OutputPathExtension(otherFilePath: string)
    requires HasNonDot(Stem(otherFilePath))
    ensures SplitExt(OutputPath(otherFilePath)).1 == ".tif"
    ensures Stem(OutputPath(otherFilePath)) == Stem(otherFilePath)
  {
    var stem := Stem(otherFilePath);
    OutputPathBasename(otherFilePath);
    TifName(stem);
    ExtensionAtDot(OutputPath(otherFilePath), |stem|);
  }

  // ---------------------------------------------------------------------
  // preprocess_files
  // ---------------------------------------------------------------------

  /** One entry of `SpatialFiles`: whether its type is "KML Ground Overlay", its base
      file and what parsing that file as KML yields, its auxiliary files, and the
      list `all_files()` returns (geonode/upload/files.py is not part of this model). */
  datatype SpatialFile = SpatialFile(
    isKmlGroundOverlay: bool,
    baseFile: string,
    baseKml: KmlParse,
    auxiliaryFiles: seq<string>,
    allFiles: seq<string>)

  datatype SpatialFiles = SpatialFiles(files: seq<SpatialFile>, archive: Option<string>)

  /** What one spatial file adds to the result: the converted GeoTIFF of a ground
      overlay's first auxiliary file, or all its files. */
  function Contribution(spatialFile: SpatialFile): (r: Result<seq<string>>)
    ensures !spatialFile.isKmlGroundOverlay ==> r == Ok(spatialFile.allFiles)
    ensures spatialFile.isKmlGroundOverlay && r.Ok? ==>
      |spatialFile.auxiliaryFiles| > 0 && r.value == [OutputPath(spatialFile.auxiliaryFiles[0])]
    ensures spatialFile.isKmlGroundOverlay && spatialFile.auxiliaryFiles == [] ==> r == Err(IndexError)
    ensures spatialFile.isKmlGroundOverlay && spatialFile.auxiliaryFiles != [] ==>
      (r.Ok? <==> ConvertGroundOverlay(spatialFile.baseKml, spatialFile.auxiliaryFiles[0]).Ok?)
      && (r.Err? ==> r.error == ConvertGroundOverlay(spatialFile.baseKml, spatialFile.auxiliaryFiles[0]).error)
  {
    if !spatialFile.isKmlGroundOverlay then Ok(spatialFile.allFiles)
    else if spatialFile.auxiliaryFiles == [] then Err(IndexError)
    else
      var converted := ConvertGroundOverlay(spatialFile.baseKml, spatialFile.auxiliaryFiles[0]);
      if converted.Err? then Err(converted.error) else Ok([converted.value.outputPath])
  }

  function Concat(parts: seq<seq<string>>): seq<string> {
    if parts == [] then [] else Concat(parts[..|parts| - 1]) + parts[|parts| - 1]
  }

  function ArchivePaths(archive: Option<string>): seq<string> {
    if archive.Some? then [archive.value] else []
  }

  /** The result of `preprocess_files`: the contributions in order, then the archive. */
  function Preprocessed(spatialFiles: SpatialFiles): Result<seq<string>> {
    var parts := MapResults(spatialFiles.files, Contribution);
    if parts.Err? then Err(parts.error) else Ok(Concat(parts.value) + ArchivePaths(spatialFiles.archive))
  }

  /** `preprocess_files`, accumulating `result` in a loop. */
  method PreprocessFiles(spatialFiles: SpatialFiles) returns (r: Result<seq<string>>)
    ensures r == Preprocessed(spatialFiles)
  {
    var files := spatialFiles.files;
    var result: seq<string> := [];
    var i := 0;
    while i < |files|
      invariant 0 <= i <= |files|
      invariant MapResults(files[..i], Contribution).Ok?
      invariant result == Concat(MapResults(files[..i], Contribution).value)
    {
      var preprocessed := PreprocessFile(files[i]);
      if preprocessed.Err? {
        MapResultsFailsAt(files, Contribution, i);
        MapResultsErrExtends(files, Contribution, i + 1);
        return Err(preprocessed.error);
      }
      MapResultsStep(files, Contribution, i);
      var parts := MapResults(files[..i + 1], Contribution).value;
      assert parts[..|parts| - 1] == MapResults(files[..i], Contribution).value;
      result := result + preprocessed.value;
      i := i + 1;
    }
    assert files[..|files|] == files;
    assert result == Concat(MapResults(files, Contribution).value);
    if spatialFiles.archive.Some? {
      result := result + [spatialFiles.archive.value];
    } else {
      assert result + ArchivePaths(spatialFiles.archive) == result;
    }
    return Ok(result);
  }

  /** The body of the `preprocess_files` loop for one spatial file: a ground overlay is
      converted from its first auxiliary file, any other file contributes all its files. */
  method PreprocessFile(spatialFile: SpatialFile) returns (r: Result<seq<string>>)
    ensures r == Contribution(spatialFile)
  {
    if spatialFile.isKmlGroundOverlay {
      if spatialFile.auxiliaryFiles == [] {
        return Err(IndexError);
      }
      var converted := ConvertGroundOverlay(spatialFile.baseKml, spatialFile.auxiliaryFiles[0]);
      if converted.Err? {
        return Err(converted.error);
      }
      r := Ok([converted.value.outputPath]);
    } else {
      r := Ok(spatialFile.allFiles);
    }
  }

  /** Preprocessing fails exactly when some file's contribution fails, with the error of
      the first such file; otherwise every file contributes in order and the archive
      comes last. */
  lemma PreprocessedSpec(spatialFiles: SpatialFiles)
    ensures Preprocessed(spatialFiles).Ok? <==>
      forall i :: 0 <= i < |spatialFiles.files| ==> Contribution(spatialFiles.files[i]).Ok?
    ensures Preprocessed(spatialFiles).Err? ==> exists i :: (0 <= i < |spatialFiles.files|
      && Contribution(spatialFiles.files[i]) == Err(Preprocessed(spatialFiles).error)
      && forall j :: 0 <= j < i ==> Contribution(spatialFiles.files[j]).Ok?)
    ensures Preprocessed(spatialFiles).Ok? ==> exists parts: seq<seq<string>> :: (|parts| == |spatialFiles.files|
      && (forall i :: 0 <= i < |parts| ==> parts[i] == Contribution(spatialFiles.files[i]).value)
      && Preprocessed(spatialFiles).value == Concat(parts) + ArchivePaths(spatialFiles.archive))
  {
    MapResultsSpec(spatialFiles.files, Contribution);
  }

  /** The archive, when there is one, is the last path of a successful result. */
  lemma ArchiveLast(spatialFiles: SpatialFiles)
    requires Preprocessed(spatialFiles).Ok? && spatialFiles.archive.Some?
    ensures var paths := Preprocessed(spatialFiles).value;
      |paths| > 0 && paths[|paths| - 1] == spatialFiles.archive.value
  {
  }

  /** Without ground overlays nothing fails: the result lists every file's files, then the archive. */
  lemma PreprocessedWithoutOverlays(spatialFiles: SpatialFiles)
    requires forall i :: 0 <= i < |spatialFiles.files| ==> !spatialFiles.files[i].isKmlGroundOverlay
    ensures Preprocessed(spatialFiles) ==
      Ok(Concat(AllFilesOf(spatialFiles.files)) + ArchivePaths(spatialFiles.archive))
  {
    ContributionsWithoutOverlays(spatialFiles.files);
  }

  lemma {:induction false} ContributionsWithoutOverlays(files: seq<SpatialFile>)
    requires forall i :: 0 <= i < |files| ==> !files[i].isKmlGroundOverlay
    ensures MapResults(files, Contribution) == Ok(AllFilesOf(files))
    decreases |files|
  {
    if files != [] {
      var n := |files| - 1;
      ContributionsWithoutOverlays(files[..n]);
      assert AllFilesOf(files) == AllFilesOf(files[..n]) + [files[n].allFiles];
    }
  }

  /** `[f.all_files() for f in files]`. */
  function AllFilesOf(files: seq<SpatialFile>): (r: seq<seq<string>>)
    ensures |r| == |files|
    ensures forall i :: 0 <= i < |files| ==> r[i] == files[i].allFiles
  {
    seq(|files|, i requires 0 <= i < |files| => files[i].allFiles)
  }
}
