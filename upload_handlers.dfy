/** The validation of uploaded spatial files in geonode/upload/uploadhandlers.py:
    file-name cleaning, extension lookup, the choice of a handler for a set of
    uploaded files, what each handler accepts, and the list of paths written
    to disk. */
module UploadHandlers {
  import opened PyStrings
  import opened Outcomes
  import opened Bundle
  import opened SeqSearch

  /** `KML_IMAGE_EXTENSIONS`: image formats a ground overlay may reference, with their aliases. */
  const KmlImageExtensions: map<string, seq<string>> := map[
    "tif" := ["tif", "tiff", "geotif", "geotiff"],
    "jpg" := ["jpg", "jpeg"],
    "png" := ["png"],
    "gif" := ["gif"]]

  /** `SHAPEFILE_COMPONENTS`: component extension, mapped to whether it is mandatory. */
  const ShapefileComponents: map<string, bool> := map[
    "shp" := true,
    "dbf" := true,
    "shx" := true,
    "prj" := false,
    "xml" := false,
    "sld" := false]

  // ---------------------------------------------------------------------
  // clean_name and ensure_safe_file_name
  // ---------------------------------------------------------------------

  /** The class `[a-zA-Z\._]`: characters a cleaned name may start with. */
  predicate IsLeadChar(c: char) { IsAsciiLetter(c) || c == '.' || c == '_' }

  /** The class `[a-zA-Z\._0-9]`: characters a cleaned name may contain. */
  predicate IsNameChar(c: char) { IsLeadChar(c) || IsAsciiDigit(c) }

  /** A name `clean_name` leaves as it is. */
  predicate IsCleanName(s: string) {
    |s| > 0 && !IsAsciiDigit(s[0]) && forall i :: 0 <= i < |s| ==> IsNameChar(s[i])
  }

  /** The length of the longest prefix of `s` none of whose characters satisfies `stop`. */
  function SpanUntil(s: string, stop: char -> bool): (n: nat)
    ensures n <= |s|
    ensures forall i :: 0 <= i < n ==> !stop(s[i])
    ensures n < |s| ==> stop(s[n])
  {
    if s == [] || stop(s[0]) then 0 else 1 + SpanUntil(s[1..], stop)
  }

  /** The second alternative of the pattern, `[^a-zA-Z\._0-9]+`, substituted by `_`
      from left to right: every maximal run of other characters becomes one `_`.
      `inRun` says that the character before `s` belonged to a replaced run. */
  function ReplaceRunsFrom(s: string, inRun: bool): (r: string)
    ensures |r| <= |s|
    decreases |s|
  {
    if s == [] then []
    else if IsNameChar(s[0]) then [s[0]] + ReplaceRunsFrom(s[1..], false)
    else if inRun then ReplaceRunsFrom(s[1..], true)
    else "_" + ReplaceRunsFrom(s[1..], true)
  }

  function ReplaceRuns(s: string): string { ReplaceRunsFrom(s, false) }

  /** Whether the scan is inside a replaced run after reading `x`. */
  function InRunAfter(x: string, inRun: bool): bool {
    if x == [] then inRun else !IsNameChar(x[|x| - 1])
  }

  /** Substitution leaves only allowed characters. */
  lemma {:induction false} ReplaceRunsAllowed(s: string, inRun: bool)
    ensures forall i :: 0 <= i < |ReplaceRunsFrom(s, inRun)| ==> IsNameChar(ReplaceRunsFrom(s, inRun)[i])
    decreases |s|
  {
    if s != [] {
      ReplaceRunsAllowed(s[1..], !IsNameChar(s[0]));
    }
  }

  /** Substitution leaves a string of allowed characters unchanged. */
  lemma {:induction false} ReplaceRunsKeepsAllowed(s: string, inRun: bool)
    requires forall i :: 0 <= i < |s| ==> IsNameChar(s[i])
    ensures ReplaceRunsFrom(s, inRun) == s
    decreases |s|
  {
    if s != [] {
      assert IsNameChar(s[0]);
      ReplaceRunsKeepsAllowed(s[1..], false);
    }
  }

  /** Substitution scans left to right: the result for `x + y` is the result for `x`
      followed by the result for `y`, in the state reading `x` left the scan in. */
  lemma {:induction false} ReplaceRunsConcat(x: string, y: string, inRun: bool)
    ensures ReplaceRunsFrom(x + y, inRun) == ReplaceRunsFrom(x, inRun) + ReplaceRunsFrom(y, InRunAfter(x, inRun))
    decreases |x|
  {
    if x == [] {
      assert x + y == y;
    } else {
      assert (x + y)[0] == x[0];
      assert (x + y)[1..] == x[1..] + y;
      var next := !IsNameChar(x[0]);
      ReplaceRunsConcat(x[1..], y, next);
      assert InRunAfter(x[1..], next) == InRunAfter(x, inRun);
      var a := ReplaceRunsFrom(x[1..], next);
      var b := ReplaceRunsFrom(y, InRunAfter(x, inRun));
      assert ReplaceRunsFrom(x[1..] + y, next) == a + b;
      if IsNameChar(x[0]) {
        assert [x[0]] + (a + b) == ([x[0]] + a) + b;
      } else if !inRun {
        assert "_" + (a + b) == ("_" + a) + b;
      }
    }
  }

  /** A run of disallowed characters becomes one `_`, or nothing when it continues a run. */
  lemma {:induction false} ReplaceWholeRun(run: string, inRun: bool)
    requires run != [] && forall i :: 0 <= i < |run| ==> !IsNameChar(run[i])
    ensures ReplaceRunsFrom(run, inRun) == if inRun then "" else "_"
    decreases |run|
  {
    if |run| > 1 {
      assert !IsNameChar(run[1..][0]);
      ReplaceWholeRun(run[1..], true);
    }
  }

  /** Each maximal run of disallowed characters becomes exactly one `_`. */
  lemma ReplaceMaximalRun(x: string, run: string, y: string)
    requires x == [] || IsNameChar(x[|x| - 1])
    requires run != [] && forall i :: 0 <= i < |run| ==> !IsNameChar(run[i])
    requires y == [] || IsNameChar(y[0])
    ensures ReplaceRuns(x + run + y) == ReplaceRuns(x) + "_" + ReplaceRuns(y)
  {
    ReplaceRunsConcat(x + run, y, false);
    ReplaceRunsConcat(x, run, false);
    ReplaceWholeRun(run, false);
    assert InRunAfter(x + run, false) == true;
    if y != [] {
      assert ReplaceRunsFrom(y, true) == ReplaceRunsFrom(y, false);
    }
  }

  /** `regex.sub("_", s)` for `(^[^a-zA-Z\._]+)|([^a-zA-Z\._0-9]+)`: a leading run of
      characters outside `[a-zA-Z._]`, digits included, becomes one `_`; after it, the
      second alternative applies. */
  function SubstituteUnsafe(s: string): string
  {
    var n := SpanUntil(s, IsLeadChar);
    if n > 0 then "_" + ReplaceRuns(s[n..]) else ReplaceRuns(s)
  }

  /** `clean_name`: an empty name fails on `name[0]`; a name starting with a digit
      gets `_` in front; then the pattern is substituted. */
  function CleanName(name: string): (r: Result<string>)
    ensures r.Err? <==> name == []
    ensures r.Err? ==> r.error == IndexError
  {
    if name == [] then Err(IndexError)
    else
      var s := if IsAsciiDigit(name[0]) then "_" + name else name;
      Ok(SubstituteUnsafe(s))
  }

  /** A cleaned name is non-empty, holds only `[a-zA-Z._0-9]` and does not start
      with a digit. */
  lemma CleanNameIsClean(name: string)
    requires name != []
    ensures IsCleanName(CleanName(name).value)
  {
    var s := if IsAsciiDigit(name[0]) then "_" + name else name;
    var n := SpanUntil(s, IsLeadChar);
    ReplaceRunsAllowed(s[n..], false);
    ReplaceRunsAllowed(s, false);
    assert n < |s| ==> IsLeadChar(s[n]);
  }

  /** A name is left unchanged exactly when it is already clean. */
  lemma CleanNameFixedPoint(name: string)
    requires name != []
    ensures CleanName(name) == Ok(name) <==> IsCleanName(name)
  {
    CleanNameIsClean(name);
    if IsCleanName(name) {
      assert IsLeadChar(name[0]);
      assert SpanUntil(name, IsLeadChar) == 0;
      ReplaceRunsKeepsAllowed(name, false);
    }
  }

  /** Cleaning a cleaned name changes nothing. */
  lemma CleanNameIdempotent(name: string)
    requires name != []
    ensures CleanName(CleanName(name).value) == CleanName(name)
  {
    CleanNameIsClean(name);
    CleanNameFixedPoint(CleanName(name).value);
  }

  /** Inside a name, each maximal run of other characters becomes one `_`. */
  lemma CleanNameReplacesRun(x: string, run: string, y: string)
    requires IsCleanName(x)
    requires run != [] && forall i :: 0 <= i < |run| ==> !IsNameChar(run[i])
    requires y == [] || IsNameChar(y[0])
    ensures CleanName(x + run + y) == Ok(x + "_" + ReplaceRuns(y))
  {
    var s := x + run + y;
    assert s[0] == x[0];
    assert IsLeadChar(s[0]);
    assert SpanUntil(s, IsLeadChar) == 0;
    ReplaceMaximalRun(x, run, y);
    ReplaceRunsKeepsAllowed(x, false);
  }

  /** A name of allowed characters starting with a digit only gains a leading `_`. */
  lemma CleanNameLeadingDigit(name: string)
    requires name != [] && IsAsciiDigit(name[0])
    requires forall i :: 0 <= i < |name| ==> IsNameChar(name[i])
    ensures CleanName(name) == Ok("_" + name)
  {
    var s := "_" + name;
    assert SpanUntil(s, IsLeadChar) == 0;
    assert forall i :: 0 <= i < |s| ==> IsNameChar(s[i]) by {
      forall i | 0 <= i < |s| ensures IsNameChar(s[i]) {
        if i > 0 { assert s[i] == name[i - 1]; }
      }
    }
    ReplaceRunsKeepsAllowed(s, false);
  }

  /** A leading run of characters outside `[a-zA-Z._]` that does not start with a digit,
      digits within it included, becomes one `_`. */
  lemma CleanNameLeadingRun(run: string, rest: string)
    requires run != [] && !IsAsciiDigit(run[0])
    requires forall i :: 0 <= i < |run| ==> !IsLeadChar(run[i])
    requires rest != [] && IsLeadChar(rest[0])
    ensures CleanName(run + rest) == Ok("_" + ReplaceRuns(rest))
  {
    var s := run + rest;
    assert s[0] == run[0];
    var n := SpanUntil(s, IsLeadChar);
    assert n == |run| by {
      assert forall i :: 0 <= i < |run| ==> s[i] == run[i];
      assert s[|run|] == rest[0];
    }
    assert s[n..] == rest;
  }

  /** `ensure_safe_file_name`: the base name is cleaned and, when cleaning changed it,
      the path is rebuilt in the same directory (the file is renamed to it). */
  function EnsureSafeFileName(fileName: string): (r: Result<string>)
    ensures r.Err? <==> Basename(fileName) == []
    ensures r.Err? ==> r.error == IndexError
  {
    var (dirname, baseName) := Split(fileName);
    match CleanName(baseName)
    case Err(e) => Err(e)
    case Ok(safe) =>
      if safe != baseName then Ok(Join(dirname, safe)) else Ok(fileName)
  }

  /** The safe path keeps the directory and carries the cleaned base name; it is the
      original path exactly when that base name was already clean. */
  lemma EnsureSafeFileNameSpec(fileName: string)
    requires Basename(fileName) != []
    ensures var r := EnsureSafeFileName(fileName).value;
      && Basename(r) == CleanName(Basename(fileName)).value
      && IsCleanName(Basename(r))
      && Dirname(r) == Dirname(fileName)
      && (r == fileName <==> IsCleanName(Basename(fileName)))
  {
    var baseName := Basename(fileName);
    var safe := CleanName(baseName).value;
    CleanNameFixedPoint(baseName);
    CleanNameIsClean(baseName);
    if safe != baseName {
      SafeNameInDirectory(fileName, safe);
    }
  }

  lemma SafeNameInDirectory(fileName: string, safe: string)
    requires IsCleanName(safe)
    ensures Basename(Join(Dirname(fileName), safe)) == safe
    ensures Dirname(Join(Dirname(fileName), safe)) == Dirname(fileName)
  {
    BasenameOfJoin(Dirname(fileName), safe);
    DirnameShape(fileName);
    DirnameOfJoin(Dirname(fileName), safe);
  }

  // ---------------------------------------------------------------------
  // get_file_extension, _get_file_by_extension and look_for_kml_image_file
  // ---------------------------------------------------------------------

  /** `get_file_extension`: the extension after its dot, lower-cased. */
  function GetFileExtension(name: string): (r: string)
    ensures '.' !in r && '/' !in r
    ensures Lower(r) == r
  {
    var ext := SplitExt(name).1;
    if ext == [] then []
    else
      var r := Lower(ext[1..]);
      assert forall i :: 0 <= i < |r| ==> r[i] != '.' && r[i] != '/' by {
        forall i | 0 <= i < |r| ensures r[i] != '.' && r[i] != '/' {
          assert ext[1..][i] in ext[1..];
        }
      }
      LowerIdempotent(ext[1..]);
      r
  }

  /** The extension is everything after the last dot of the base name that is not
      merely a run of leading dots, lower-cased; without such a dot it is empty. */
  lemma GetFileExtensionSpec(name: string)
    ensures forall d :: ExtensionDotAt(Basename(name), d) ==>
      GetFileExtension(name) == Lower(Basename(name)[d + 1..])
    ensures (forall d :: !ExtensionDotAt(Basename(name), d)) ==> GetFileExtension(name) == []
  {
    forall d | ExtensionDotAt(Basename(name), d)
      ensures GetFileExtension(name) == Lower(Basename(name)[d + 1..])
    {
      ExtensionAtDot(name, d);
      assert SplitExt(name).1[1..] == Basename(name)[d + 1..];
    }
    if SplitExt(name).1 != [] {
      ExtensionHasDot(name);
    }
  }

  /** The extension of a plain name `stem.ext`. */
  lemma ExtensionOfSimpleName(stem: string, ext: string)
    requires stem != [] && '.' !in stem && '/' !in stem && '.' !in ext && '/' !in ext
    ensures GetFileExtension(stem + "." + ext) == Lower(ext)
  {
    var p := stem + "." + ext;
    assert '/' !in p;
    BasenameOfPlainName(p);
    assert ExtensionDotAt(p, |stem|) by {
      assert p[..|stem|] == stem;
      assert p[|stem| + 1..] == ext;
      assert stem[0] != '.';
    }
    GetFileExtensionSpec(p);
    assert p[|stem| + 1..] == ext;
  }

  function FileExtension(f: UploadedFile): string { GetFileExtension(f.name) }

  /** `[get_file_extension(p.name) for p in uploaded_files]`. */
  function Extensions(files: seq<UploadedFile>): (r: seq<string>)
    ensures |r| == |files|
    ensures forall i :: 0 <= i < |files| ==> r[i] == FileExtension(files[i])
  {
    seq(|files|, i requires 0 <= i < |files| => FileExtension(files[i]))
  }

  /** `_get_file_by_extension`: the first file with the extension, or nothing. */
  function FileByExtension(extension: string, files: seq<UploadedFile>): (r: Option<UploadedFile>)
    ensures r.None? <==> extension !in Extensions(files)
    ensures r.Some? ==> exists i :: (0 <= i < |files| && files[i] == r.value
      && FileExtension(files[i]) == extension
      && forall j :: 0 <= j < i ==> FileExtension(files[j]) != extension)
  {
    var i := FirstIndexOf(files, FileExtension, extension);
    if i < 0 then None else Some(files[i])
  }

  predicate IsKmlImageExtension(ext: string) {
    exists k :: k in KmlImageExtensions && ext in KmlImageExtensions[k]
  }

  lemma KmlImageExtensionsListed(ext: string)
    ensures IsKmlImageExtension(ext) <==>
      ext in ["tif", "tiff", "geotif", "geotiff", "jpg", "jpeg", "png", "gif"]
  {
    if ext in ["tif", "tiff", "geotif", "geotiff"] {
      assert ext in KmlImageExtensions["tif"];
    } else if ext in ["jpg", "jpeg"] {
      assert ext in KmlImageExtensions["jpg"];
    } else if ext == "png" {
      assert ext in KmlImageExtensions["png"];
    } else if ext == "gif" {
      assert ext in KmlImageExtensions["gif"];
    }
  }

  predicate IsKmlImageName(fileName: string) { IsKmlImageExtension(GetFileExtension(fileName)) }

  /** What `look_for_kml_image_file` finds: the first name whose extension is one
      of the image aliases, or nothing. */
  function KmlImageFile(fileNames: seq<string>): Option<string> {
    var i := FirstIndexWhere(fileNames, IsKmlImageName);
    if i < 0 then None else Some(fileNames[i])
  }

  /** Nothing is found exactly when no name has an image extension; otherwise what is
      found is the first such name. */
  lemma KmlImageFileSpec(fileNames: seq<string>)
    ensures KmlImageFile(fileNames).None? <==> forall i :: 0 <= i < |fileNames| ==> !IsKmlImageName(fileNames[i])
    ensures KmlImageFile(fileNames).Some? ==> exists i :: (0 <= i < |fileNames| && fileNames[i] == KmlImageFile(fileNames).value
      && IsKmlImageName(fileNames[i])
      && forall j :: 0 <= j < i ==> !IsKmlImageName(fileNames[j]))
  {
  }

  /** `look_for_kml_image_file`, with its loop over the names and its inner loop over
      the image formats in whichever order the dictionary yields them. */
  method LookForKmlImageFile(fileNames: seq<string>) returns (result: Option<string>)
    ensures result == KmlImageFile(fileNames)
  {
    var i := 0;
    while i < |fileNames|
      invariant 0 <= i <= |fileNames|
      invariant forall j :: 0 <= j < i ==> !IsKmlImageName(fileNames[j])
    {
      var fileExtension := GetFileExtension(fileNames[i]);
      var found := IsImageFormat(fileExtension);
      if found {
        FirstIndexWhereIs(fileNames, IsKmlImageName, i);
        return Some(fileNames[i]);
      }
      i := i + 1;
    }
    FirstIndexWhereIs(fileNames, IsKmlImageName, -1);
    return None;
  }

  /** The inner `for extension, aliases in KML_IMAGE_EXTENSIONS.items()` loop, in
      whichever order the dictionary yields the formats: whether the extension is one of
      the aliases. */
  method IsImageFormat(fileExtension: string) returns (found: bool)
    ensures found == IsKmlImageExtension(fileExtension)
  {
    var remaining := KmlImageExtensions.Keys;
    while remaining != {}
      invariant remaining <= KmlImageExtensions.Keys
      invariant forall k :: k in KmlImageExtensions && k !in remaining ==> fileExtension !in KmlImageExtensions[k]
      decreases remaining
    {
      var extension :| extension in remaining;
      if fileExtension in KmlImageExtensions[extension] {
        return true;
      }
      remaining := remaining - {extension};
    }
    found := false;
  }

  // ---------------------------------------------------------------------
  // validate_kml_ground_overlay
  // ---------------------------------------------------------------------

  /** The stripped text of the overlay's `kml:Icon/kml:href`, or "" when it has none. */
  function OverlayImagePath(overlay: GroundOverlay): string {
    if overlay.href.Some? then Strip(overlay.href.value) else ""
  }

  /** `validate_kml_ground_overlay`: a document without ground overlays passes; one with
      a single overlay passes when its image path is the given one; more fail. */
  function ValidateKmlGroundOverlay(kml: KmlParse, imageFilepath: string): (r: Result<()>)
    ensures kml.Unparsable? ==> r == Err(MalformedKml)
    ensures kml.Parsed? ==> var overlays := kml.doc.groundOverlays;
      (r.Ok? <==> |overlays| == 0 || (|overlays| == 1 && OverlayImagePath(overlays[0]) == imageFilepath))
      && (|overlays| > 1 ==> r == Err(RuntimeError(MultipleGroundOverlays)))
      && (|overlays| == 1 && r.Err? ==> r.error == RuntimeError(GroundOverlayImageNotFound))
  {
    match kml
    case Unparsable => Err(MalformedKml)
    case Parsed(doc) =>
      if |doc.groundOverlays| > 1 then Err(RuntimeError(MultipleGroundOverlays))
      else if |doc.groundOverlays| == 1 && OverlayImagePath(doc.groundOverlays[0]) != imageFilepath then
        Err(RuntimeError(GroundOverlayImageNotFound))
      else Ok(())
  }

  /** Whitespace around the declared image path does not matter. */
  lemma PaddedHrefAccepted(doc: KmlDoc, overlay: GroundOverlay, before: string, path: string, after: string)
    requires doc.groundOverlays == [overlay]
    requires AllWhitespace(before) && AllWhitespace(after)
    requires path == [] || (!IsWhitespace(path[0]) && !IsWhitespace(path[|path| - 1]))
    requires overlay.href == Some(before + path + after)
    ensures ValidateKmlGroundOverlay(Parsed(doc), path) == Ok(())
  {
    StripTrailingWhitespace(before + path, after);
    StripLeadingWhitespace(before, path);
    StripTrimmed(path);
  }

  /** An overlay that declares no image only matches the empty path, which no image
      file found by `look_for_kml_image_file` has. */
  lemma MissingHrefRejected(doc: KmlDoc, overlay: GroundOverlay, imageName: string)
    requires doc.groundOverlays == [overlay]
    requires overlay.href.None?
    requires IsKmlImageName(imageName)
    ensures ValidateKmlGroundOverlay(Parsed(doc), imageName) ==
      Err(RuntimeError(GroundOverlayImageNotFound))
  {
  }

  // ---------------------------------------------------------------------
  // Handlers and get_upload_handler
  // ---------------------------------------------------------------------

  /** The handler objects; none of them changes after `__init__`. */
  datatype UploadHandler =
    | GenericHandler(uploadedFiles: seq<UploadedFile>)
    | ZipHandler(zipFile: UploadedFile)
    | KmzHandler(kmzFile: UploadedFile)
    | KmlHandler(kmlFile: UploadedFile, imageFile: Option<UploadedFile>)
    | ShapefileHandler(shapefileComponents: map<string, UploadedFile>)

  /** The loops `for extension_name in SHAPEFILE_COMPONENTS: for item in items:` that keep,
      for each component extension, the last item carrying it. */
  function LastByExtension<T>(items: seq<T>, extensionOf: T -> string): (m: map<string, T>)
    ensures forall k :: k in m <==> k in ShapefileComponents && exists i :: 0 <= i < |items| && extensionOf(items[i]) == k
    ensures forall k :: k in m ==> exists i :: (0 <= i < |items| && items[i] == m[k]
      && extensionOf(items[i]) == k
      && forall j :: i < j < |items| ==> extensionOf(items[j]) != k)
  {
    map k | k in ShapefileComponents && LastIndexOf(items, extensionOf, k) >= 0 ::
      items[LastIndexOf(items, extensionOf, k)]
  }

  /** Those loops as written: the outer over the components in dictionary order, the
      inner over the items; a later item overwrites an earlier one. */
  method CollectShapefileComponents<T>(items: seq<T>, extensionOf: T -> string) returns (m: map<string, T>)
    ensures m == LastByExtension(items, extensionOf)
  {
    m := map[];
    var remaining := ShapefileComponents.Keys;
    while remaining != {}
      invariant remaining <= ShapefileComponents.Keys
      invariant m == LastWithExtensionIn(items, extensionOf, ShapefileComponents.Keys - remaining)
      decreases remaining
    {
      var extensionName :| extensionName in remaining;
      LastWithExtensionInStep(items, extensionOf, ShapefileComponents.Keys - remaining, extensionName);
      assert ShapefileComponents.Keys - (remaining - {extensionName})
        == (ShapefileComponents.Keys - remaining) + {extensionName};
      m := KeepLastWithExtension(m, items, extensionOf, extensionName);
      remaining := remaining - {extensionName};
    }
    assert ShapefileComponents.Keys - remaining == ShapefileComponents.Keys;
  }

  /** For the extensions in `extensions` that some item carries, the last such item. */
  function LastWithExtensionIn<T>(items: seq<T>, extensionOf: T -> string, extensions: set<string>): map<string, T> {
    map k | k in extensions && LastIndexOf(items, extensionOf, k) >= 0 :: items[LastIndexOf(items, extensionOf, k)]
  }

  lemma LastWithExtensionInStep<T>(items: seq<T>, extensionOf: T -> string, extensions: set<string>, extension: string)
    ensures var i := LastIndexOf(items, extensionOf, extension);
      var m := LastWithExtensionIn(items, extensionOf, extensions);
      LastWithExtensionIn(items, extensionOf, extensions + {extension}) ==
        if i >= 0 then m[extension := items[i]] else m
  {
  }

  /** The inner `for item in items` loop for one component extension: every item with
      that extension overwrites the entry, so the last one stays. */
  method KeepLastWithExtension<T>(m0: map<string, T>, items: seq<T>, extensionOf: T -> string, extensionName: string)
    returns (m: map<string, T>)
    ensures var i := LastIndexOf(items, extensionOf, extensionName);
      m == if i >= 0 then m0[extensionName := items[i]] else m0
  {
    m := m0;
    var i := 0;
    while i < |items|
      invariant 0 <= i <= |items|
      invariant var j := LastIndexOf(items[..i], extensionOf, extensionName);
        m == if j >= 0 then m0[extensionName := items[j]] else m0
    {
      assert items[..i + 1][..i] == items[..i];
      if extensionOf(items[i]) == extensionName {
        m := m[extensionName := items[i]];
      }
      i := i + 1;
    }
    assert items[..|items|] == items;
  }

  /** `KmlHandler.__init__`: the first file whose lower-cased name ends in "kml", and the
      file named by `look_for_kml_image_file`, if any. */
  function NewKmlHandler(files: seq<UploadedFile>): (r: Result<UploadHandler>)
    ensures r.Err? <==> forall i :: 0 <= i < |files| ==> !EndsWith(Lower(files[i].name), "kml")
    ensures r.Err? ==> r.error == IndexError
    ensures r.Ok? ==> r.value.KmlHandler? && exists k :: (0 <= k < |files| && r.value.kmlFile == files[k]
      && HasKmlSuffix(files[k]) && forall j :: 0 <= j < k ==> !HasKmlSuffix(files[j]))
    ensures r.Ok? ==> (r.value.imageFile.Some? <==> KmlImageFile(Names(files)).Some?)
    ensures r.Ok? && r.value.imageFile.Some? ==> exists i :: (0 <= i < |files| && r.value.imageFile.value == files[i]
      && files[i].name == KmlImageFile(Names(files)).value
      && forall j :: 0 <= j < i ==> files[j].name != KmlImageFile(Names(files)).value)
  {
    var k := FirstIndexWhere(files, HasKmlSuffix);
    if k < 0 then Err(IndexError) else Ok(KmlHandler(files[k], KmlImageUpload(files)))
  }

  /** The uploaded file `KmlHandler.__init__` keeps as the image: the first one named
      as `look_for_kml_image_file` says, if it finds a name. */
  function KmlImageUpload(files: seq<UploadedFile>): (r: Option<UploadedFile>)
    ensures r.Some? <==> KmlImageFile(Names(files)).Some?
    ensures r.Some? ==> exists i :: (0 <= i < |files| && r.value == files[i]
      && files[i].name == KmlImageFile(Names(files)).value
      && forall j :: 0 <= j < i ==> files[j].name != KmlImageFile(Names(files)).value)
  {
    var imageName := KmlImageFile(Names(files));
    if imageName.None? then None
    else
      var j := FirstIndexOf(files, NameOf, imageName.value);
      if j < 0 then None else Some(files[j])
  }

  predicate HasKmlSuffix(f: UploadedFile) { EndsWith(Lower(f.name), "kml") }

  /** `get_upload_handler`; constructing a zip or kmz handler fails on a file the zip
      reader rejects, and nothing else fails. */
  function GetUploadHandler(files: seq<UploadedFile>): (r: Result<UploadHandler>)
    ensures r.Err? ==> r.error == RuntimeError(InvalidZipFile) || r.error == RuntimeError(InvalidKmzFile)
  {
    var extensions := Extensions(files);
    if "zip" in extensions then
      var zipFile := FileByExtension("zip", files).value;
      if zipFile.isZip then Ok(ZipHandler(zipFile)) else Err(RuntimeError(InvalidZipFile))
    else if "kmz" in extensions then
      var kmzFile := FileByExtension("kmz", files).value;
      if kmzFile.isZip then Ok(KmzHandler(kmzFile)) else Err(RuntimeError(InvalidKmzFile))
    else if "shp" in extensions then
      Ok(ShapefileHandler(LastByExtension(files, FileExtension)))
    else if "kml" in extensions then
      var k := FirstIndexWhere(files, HasKmlSuffix);
      assert k >= 0 by {
        var i :| 0 <= i < |files| && FileExtension(files[i]) == "kml";
        KmlExtensionHasKmlSuffix(files[i].name);
      }
      NewKmlHandler(files)
    else Ok(GenericHandler(files))
  }

  lemma KmlExtensionHasKmlSuffix(name: string)
    requires GetFileExtension(name) == "kml"
    ensures EndsWith(Lower(name), "kml")
  {
    var ext := SplitExt(name).1;
    var n := |name|;
    assert Lower(ext[1..]) == "kml";
    assert ext[1..] == name[n - 3..] by {
      assert name == SplitExt(name).0 + ext;
    }
    LowerSuffix(name, n - 3);
  }

  /** A file is the first of the upload with a given extension. */
  predicate FirstWithExtension(files: seq<UploadedFile>, i: int, extension: string) {
    0 <= i < |files| && FileExtension(files[i]) == extension
    && forall j :: 0 <= j < i ==> FileExtension(files[j]) != extension
  }

  /** The handler follows the priority zip, kmz, shp, kml, and the first file with the
      winning extension is the one handled; a kml upload always gets its handler. */
  lemma UploadHandlerPriority(files: seq<UploadedFile>)
    ensures forall i :: FirstWithExtension(files, i, "zip") ==>
      GetUploadHandler(files) == if files[i].isZip then Ok(ZipHandler(files[i])) else Err(RuntimeError(InvalidZipFile))
    ensures "zip" !in Extensions(files) ==> forall i :: FirstWithExtension(files, i, "kmz") ==>
      GetUploadHandler(files) == if files[i].isZip then Ok(KmzHandler(files[i])) else Err(RuntimeError(InvalidKmzFile))
    ensures "zip" !in Extensions(files) && "kmz" !in Extensions(files) && "shp" in Extensions(files) ==>
      GetUploadHandler(files) == Ok(ShapefileHandler(LastByExtension(files, FileExtension)))
    ensures ("zip" !in Extensions(files) && "kmz" !in Extensions(files) && "shp" !in Extensions(files)
      && "kml" in Extensions(files)) ==> GetUploadHandler(files).Ok? && GetUploadHandler(files) == NewKmlHandler(files)
    ensures (forall e :: e in ["zip", "kmz", "shp", "kml"] ==> e !in Extensions(files)) ==>
      GetUploadHandler(files) == Ok(GenericHandler(files))
  {
    forall i | FirstWithExtension(files, i, "zip")
      ensures FileByExtension("zip", files) == Some(files[i])
    {
      FirstIndexOfIs(files, FileExtension, "zip", i);
    }
    forall i | FirstWithExtension(files, i, "kmz")
      ensures FileByExtension("kmz", files) == Some(files[i])
    {
      FirstIndexOfIs(files, FileExtension, "kmz", i);
    }
  }

  // ---------------------------------------------------------------------
  // validate_files
  // ---------------------------------------------------------------------

  predicate MandatoryComponentsPresent<T>(components: map<string, T>) {
    forall k :: k in ShapefileComponents && ShapefileComponents[k] ==> k in components
  }

  /** Every component present has the base name `shpName`. */
  predicate ComponentNamesMatch(componentNames: map<string, string>, shpName: string) {
    forall k :: k in ShapefileComponents && k in componentNames ==> Stem(componentNames[k]) == shpName
  }

  /** The errors the component check may raise, depending on the dictionary's order. */
  predicate IsComponentError(componentNames: map<string, string>, shpName: string, e: Error) {
    (exists k :: (k in ShapefileComponents && ShapefileComponents[k] && k !in componentNames
       && e == RuntimeError(MandatoryComponentMissing(k))))
    || (exists k :: (k in ShapefileComponents && k in componentNames && Stem(componentNames[k]) != shpName
       && e == RuntimeError(ComponentNameMismatch(shpName, k, Stem(componentNames[k])))))
  }

  /** The second loop of `ZipHandler.validate_files` and `ShapefileHandler.validate_files`:
      each component, in dictionary order, must be present when mandatory and must have
      the shapefile's base name when present. */
  method CheckComponentNames(componentNames: map<string, string>, shpName: string) returns (r: Result<()>)
    ensures r.Ok? <==> MandatoryComponentsPresent(componentNames) && ComponentNamesMatch(componentNames, shpName)
    ensures r.Err? ==> IsComponentError(componentNames, shpName, r.error)
  {
    var remaining := ShapefileComponents.Keys;
    while remaining != {}
      invariant remaining <= ShapefileComponents.Keys
      invariant forall k :: k in ShapefileComponents && k !in remaining ==>
        (ShapefileComponents[k] ==> k in componentNames)
        && (k in componentNames ==> Stem(componentNames[k]) == shpName)
      decreases remaining
    {
      var extension :| extension in remaining;
      var mandatory := ShapefileComponents[extension];
      if extension !in componentNames && mandatory {
        return Err(RuntimeError(MandatoryComponentMissing(extension)));
      } else if extension in componentNames {
        var fileBase := Stem(componentNames[extension]);
        if fileBase != shpName {
          return Err(RuntimeError(ComponentNameMismatch(shpName, extension, fileBase)));
        }
      }
      remaining := remaining - {extension};
    }
    return Ok(());
  }

  /** What `ZipHandler.validate_files` accepts. The shapefile's name is its member path
      without the extension, while the other components are compared by base name. */
  predicate ZipContentsValid(memberNames: seq<string>) {
    var components := LastByExtension(memberNames, GetFileExtension);
    "shp" in components
    && MandatoryComponentsPresent(components)
    && ComponentNamesMatch(components, SplitExt(components["shp"]).0)
  }

  method ValidateZipHandler(zipFile: UploadedFile) returns (r: Result<()>)
    ensures r.Ok? <==> ZipContentsValid(MemberNames(zipFile.members))
    ensures r.Err? ==> var components := LastByExtension(MemberNames(zipFile.members), GetFileExtension);
      if "shp" !in components then r.error == RuntimeError(ShpNotFoundInZip)
      else IsComponentError(components, SplitExt(components["shp"]).0, r.error)
  {
    var zipContents := MemberNames(zipFile.members);
    var shapefileComponents := CollectShapefileComponents(zipContents, GetFileExtension);
    if "shp" !in shapefileComponents {
      return Err(RuntimeError(ShpNotFoundInZip));
    }
    var shpName := SplitExt(shapefileComponents["shp"]).0;
    r := CheckComponentNames(shapefileComponents, shpName);
  }

  /** A shapefile inside a directory of the zip is always rejected: its name keeps the
      directory, which no base name does. */
  lemma ZipShapefileInDirectoryRejected(memberNames: seq<string>, shp: string)
    requires "shp" in LastByExtension(memberNames, GetFileExtension)
    requires LastByExtension(memberNames, GetFileExtension)["shp"] == shp && '/' in shp
    ensures !ZipContentsValid(memberNames)
  {
    var (root, ext) := SplitExt(shp);
    assert shp == root + ext;
    var i :| 0 <= i < |shp| && shp[i] == '/';
    assert root[i] == '/';
    assert Stem(shp) != root;
  }

  /** `ShapefileHandler.__init__`. */
  method NewShapefileHandler(files: seq<UploadedFile>) returns (handler: UploadHandler)
    ensures handler == ShapefileHandler(LastByExtension(files, FileExtension))
  {
    var components := CollectShapefileComponents(files, FileExtension);
    handler := ShapefileHandler(components);
  }

  function ComponentNames(components: map<string, UploadedFile>): (r: map<string, string>)
    ensures r.Keys == components.Keys
    ensures forall k :: k in r ==> r[k] == components[k].name
  {
    map k | k in components :: components[k].name
  }

  /** `ShapefileHandler.validate_files`: the shp file's base name is the one every
      component must carry. */
  method ValidateShapefileHandler(components: map<string, UploadedFile>) returns (r: Result<()>)
    ensures "shp" !in components ==> r == Err(RuntimeError(ShpNotFound))
    ensures "shp" in components ==>
      (r.Ok? <==> MandatoryComponentsPresent(components)
                  && ComponentNamesMatch(ComponentNames(components), Stem(components["shp"].name)))
      && (r.Err? ==> IsComponentError(ComponentNames(components), Stem(components["shp"].name), r.error))
  {
    if "shp" !in components {
      return Err(RuntimeError(ShpNotFound));
    }
    var shpName := Stem(components["shp"].name);
    r := CheckComponentNames(ComponentNames(components), shpName);
  }

  predicate IsKmlMemberName(name: string) { EndsWith(Lower(name), ".kml") }

  /** `members[k]` is the first member whose name ends in ".kml". */
  predicate FirstKmlMember(members: seq<ArchiveMember>, k: int) {
    0 <= k < |members| && IsKmlMemberName(members[k].name)
    && forall j :: 0 <= j < k ==> !IsKmlMemberName(members[j].name)
  }

  /** `members[i]` is the first member whose name has an image extension. */
  predicate FirstImageMember(members: seq<ArchiveMember>, i: int) {
    0 <= i < |members| && IsKmlImageName(members[i].name)
    && forall j :: 0 <= j < i ==> !IsKmlImageName(members[j].name)
  }

  /** What `KmzHandler.validate_files` decides for the archive's members: a kml member is
      required; when an image member is present, the first kml member must reference it. */
  function KmzValidation(members: seq<ArchiveMember>): (r: Result<()>)
    ensures (forall i :: 0 <= i < |members| ==> !IsKmlMemberName(members[i].name)) ==>
      r == Err(RuntimeError(NoKmlInKmz))
    ensures ((exists i :: 0 <= i < |members| && IsKmlMemberName(members[i].name))
      && (forall i :: 0 <= i < |members| ==> !IsKmlImageName(members[i].name))) ==> r == Ok(())
    ensures r.Err? ==> r.error in {RuntimeError(NoKmlInKmz), RuntimeError(MultipleGroundOverlays),
                                  RuntimeError(GroundOverlayImageNotFound), MalformedKml}
  {
    var names := MemberNames(members);
    var k := FirstIndexWhere(names, IsKmlMemberName);
    if k < 0 then Err(RuntimeError(NoKmlInKmz))
    else match KmlImageFile(names)
      case None => Ok(())
      case Some(imageFileName) => ValidateKmlGroundOverlay(members[k].kml, imageFileName)
  }

  /** With an image member present, the archive's outcome is that of validating the
      first kml member against the first image member's name. */
  lemma KmzValidationWithImage(members: seq<ArchiveMember>, k: int, i: int)
    requires FirstKmlMember(members, k) && FirstImageMember(members, i)
    ensures KmzValidation(members) == ValidateKmlGroundOverlay(members[k].kml, members[i].name)
  {
    var names := MemberNames(members);
    FirstIndexWhereIs(names, IsKmlMemberName, k);
    FirstIndexWhereIs(names, IsKmlImageName, i);
  }

  method ValidateKmzHandler(kmzFile: UploadedFile) returns (r: Result<()>)
    ensures r == KmzValidation(kmzFile.members)
  {
    var contents := MemberNames(kmzFile.members);
    var imageFileName := LookForKmlImageFile(contents);
    var k := FirstIndexWhere(contents, IsKmlMemberName);
    if k < 0 {
      return Err(RuntimeError(NoKmlInKmz));
    }
    if imageFileName.Some? {
      r := ValidateKmlGroundOverlay(kmzFile.members[k].kml, imageFileName.value);
    } else {
      r := Ok(());
    }
  }

  /** A kmz is accepted when its first kml member has a single ground overlay whose
      (trimmed) reference is the first image member archived with it. */
  lemma KmzWithReferencedImageAccepted(members: seq<ArchiveMember>, k: nat, i: nat, overlay: GroundOverlay)
    requires k < |members| && IsKmlMemberName(members[k].name)
    requires forall j :: 0 <= j < k ==> !IsKmlMemberName(members[j].name)
    requires members[k].kml.Parsed? && members[k].kml.doc.groundOverlays == [overlay]
    requires i < |members| && members[i].name != [] && IsKmlImageName(members[i].name)
    requires forall j :: 0 <= j < i ==> !IsKmlImageName(members[j].name)
    requires overlay.href == Some(members[i].name)
    requires !IsWhitespace(members[i].name[0]) && !IsWhitespace(members[i].name[|members[i].name| - 1])
    ensures KmzValidation(members) == Ok(())
  {
    var names := MemberNames(members);
    var image := members[i].name;
    FirstIndexWhereIs(names, IsKmlMemberName, k);
    FirstIndexWhereIs(names, IsKmlImageName, i);
    assert KmlImageFile(names) == Some(image);
    StripTrimmed(image);
    assert OverlayImagePath(overlay) == image;
  }

  /** `validate_files` of whichever handler was chosen. */
  method ValidateFiles(handler: UploadHandler) returns (r: Result<()>)
    ensures handler.GenericHandler? ==> r == Ok(())
    ensures handler.ZipHandler? ==> (r.Ok? <==> ZipContentsValid(MemberNames(handler.zipFile.members)))
    ensures handler.KmzHandler? ==> r == KmzValidation(handler.kmzFile.members)
    ensures handler.KmlHandler? && handler.imageFile.None? ==> r == Ok(())
    ensures handler.KmlHandler? && handler.imageFile.Some? ==>
      r == ValidateKmlGroundOverlay(handler.kmlFile.kml, handler.imageFile.value.name)
    ensures handler.ShapefileHandler? ==>
      (r.Ok? <==> "shp" in handler.shapefileComponents
                  && MandatoryComponentsPresent(handler.shapefileComponents)
                  && ComponentNamesMatch(ComponentNames(handler.shapefileComponents),
                                         Stem(handler.shapefileComponents["shp"].name)))
  {
    match handler
    case GenericHandler(_) =>
      r := Ok(());
    case ZipHandler(zipFile) =>
      r := ValidateZipHandler(zipFile);
    case KmzHandler(kmzFile) =>
      r := ValidateKmzHandler(kmzFile);
    case KmlHandler(kmlFile, imageFile) =>
      if imageFile.Some? {
        r := ValidateKmlGroundOverlay(kmlFile.kml, imageFile.value.name);
      } else {
        r := Ok(());
      }
    case ShapefileHandler(components) =>
      r := ValidateShapefileHandler(components);
  }

  // ---------------------------------------------------------------------
  // extract_zip and write_uploaded_files_to_disk
  // ---------------------------------------------------------------------

  /** `extract_zip`: the archive's member names joined onto the destination. */
  function ExtractedPaths(destination: string, memberNames: seq<string>): (r: seq<string>)
    ensures |r| == |memberNames|
    ensures forall i :: 0 <= i < |r| ==> r[i] == Join(destination, memberNames[i])
  {
    seq(|memberNames|, i requires 0 <= i < |memberNames| => Join(destination, memberNames[i]))
  }

  /** `written_paths` after the first loop: a list while only archives were written, a
      single path once a plain file was written. */
  datatype WrittenPaths = PathList(paths: seq<string>) | SinglePath(path: string)

  /** The first loop of `write_uploaded_files_to_disk`: an archive extends the list, a
      plain file replaces it by its own path; extending a path fails. */
  function CollectWrittenPaths(targetDir: string, files: seq<UploadedFile>): (r: Result<WrittenPaths>)
    ensures r.Err? ==> r.error == AttributeError
    ensures files != [] && !files[|files| - 1].isZip ==> r.Err? || r == Ok(SinglePath(Join(targetDir, files[|files| - 1].name)))
  {
    if files == [] then Ok(PathList([]))
    else
      var f := files[|files| - 1];
      match CollectWrittenPaths(targetDir, files[..|files| - 1])
      case Err(e) => Err(e)
      case Ok(written) =>
        if f.isZip then
          if written.PathList? then Ok(PathList(written.paths + ExtractedPaths(targetDir, MemberNames(f.members))))
          else Err(AttributeError)
        else Ok(SinglePath(Join(targetDir, f.name)))
  }

  /** The paths of all members of all archives, in order. */
  function AllExtractedPaths(targetDir: string, files: seq<UploadedFile>): seq<string>
  {
    if files == [] then []
    else AllExtractedPaths(targetDir, files[..|files| - 1])
         + ExtractedPaths(targetDir, MemberNames(files[|files| - 1].members))
  }

  /** The second loop: `ensure_safe_file_name` on each path, stopping at the first failure. */
  function SafeFileNames(paths: seq<string>): Result<seq<string>>
  {
    MapResults(paths, EnsureSafeFileName)
  }

  /** The second loop succeeds exactly when every path has a base name, and then
      yields the safe name of each path, in order; it only fails with `IndexError`. */
  lemma SafeFileNamesSpec(paths: seq<string>)
    ensures SafeFileNames(paths).Ok? <==> forall i :: 0 <= i < |paths| ==> Basename(paths[i]) != []
    ensures SafeFileNames(paths).Err? ==> SafeFileNames(paths).error == IndexError
    ensures SafeFileNames(paths).Ok? ==> (|SafeFileNames(paths).value| == |paths|
      && forall i :: 0 <= i < |paths| ==> SafeFileNames(paths).value[i] == EnsureSafeFileName(paths[i]).value)
  {
    MapResultsSpec(paths, EnsureSafeFileName);
  }

  /** Iterating a string yields its characters as one-character strings. */
  function Characters(s: string): (r: seq<string>)
    ensures |r| == |s|
    ensures forall i :: 0 <= i < |s| ==> r[i] == [s[i]]
  {
    seq(|s|, i requires 0 <= i < |s| => [s[i]])
  }

  /** What `write_uploaded_files_to_disk` returns. */
  function WrittenFilePaths(targetDir: string, files: seq<UploadedFile>): Result<seq<string>>
  {
    match CollectWrittenPaths(targetDir, files)
    case Err(e) => Err(e)
    case Ok(PathList(paths)) => SafeFileNames(paths)
    case Ok(SinglePath(path)) => SafeFileNames(Characters(path))
  }

  method WriteUploadedFilesToDisk(targetDir: string, files: seq<UploadedFile>) returns (r: Result<seq<string>>)
    ensures r == WrittenFilePaths(targetDir, files)
  {
    var written := WritePaths(targetDir, files);
    if written.Err? {
      return Err(written.error);
    }
    var writtenPaths := written.value;
    var toClean := if writtenPaths.PathList? then writtenPaths.paths else Characters(writtenPaths.path);
    r := EnsureSafeFileNames(toClean);
  }

  /** The first loop of `write_uploaded_files_to_disk`. */
  method WritePaths(targetDir: string, files: seq<UploadedFile>) returns (r: Result<WrittenPaths>)
    ensures r == CollectWrittenPaths(targetDir, files)
  {
    var writtenPaths := PathList([]);
    var i := 0;
    while i < |files|
      invariant 0 <= i <= |files|
      invariant CollectWrittenPaths(targetDir, files[..i]) == Ok(writtenPaths)
    {
      var djangoFile := files[i];
      assert files[..i + 1][..i] == files[..i];
      if djangoFile.isZip {
        var extracted := ExtractedPaths(targetDir, MemberNames(djangoFile.members));
        if writtenPaths.SinglePath? {
          assert CollectWrittenPaths(targetDir, files[..i + 1]) == Err(AttributeError);
          PropagateWriteError(targetDir, files, i + 1);
          return Err(AttributeError);
        }
        writtenPaths := PathList(writtenPaths.paths + extracted);
      } else {
        writtenPaths := SinglePath(Join(targetDir, djangoFile.name));
      }
      i := i + 1;
    }
    assert files[..|files|] == files;
    r := Ok(writtenPaths);
  }

  /** The second loop of `write_uploaded_files_to_disk`. */
  method EnsureSafeFileNames(paths: seq<string>) returns (r: Result<seq<string>>)
    ensures r == SafeFileNames(paths)
  {
    var result := [];
    var j := 0;
    while j < |paths|
      invariant 0 <= j <= |paths|
      invariant SafeFileNames(paths[..j]) == Ok(result)
    {
      var safe := EnsureSafeFileName(paths[j]);
      if safe.Err? {
        PropagateSafeNameError(paths, j + 1);
        return Err(safe.error);
      }
      MapResultsStep(paths, EnsureSafeFileName, j);
      result := result + [safe.value];
      j := j + 1;
    }
    assert paths[..|paths|] == paths;
    r := Ok(result);
  }

  /** Once a prefix of the files fails, the whole upload fails the same way. */
  lemma {:induction false} PropagateWriteError(targetDir: string, files: seq<UploadedFile>, n: nat)
    requires n <= |files|
    requires CollectWrittenPaths(targetDir, files[..n]).Err?
    ensures CollectWrittenPaths(targetDir, files) == CollectWrittenPaths(targetDir, files[..n])
    decreases |files| - n
  {
    if n < |files| {
      assert files[..n + 1][..n] == files[..n];
      PropagateWriteError(targetDir, files, n + 1);
    } else {
      assert files[..n] == files;
    }
  }

  lemma {:induction false} PropagateSafeNameError(paths: seq<string>, n: nat)
    requires 0 < n <= |paths|
    requires SafeFileNames(paths[..n - 1]).Ok? && EnsureSafeFileName(paths[n - 1]).Err?
    ensures SafeFileNames(paths) == Err(IndexError)
  {
    SafeFileNamesSpec(paths);
    assert Basename(paths[n - 1]) == [];
  }

  /** An upload made only of archives yields the cleaned paths of all their members. */
  lemma {:induction false} ArchivesWritten(targetDir: string, files: seq<UploadedFile>)
    requires forall i :: 0 <= i < |files| ==> files[i].isZip
    ensures CollectWrittenPaths(targetDir, files) == Ok(PathList(AllExtractedPaths(targetDir, files)))
    ensures WrittenFilePaths(targetDir, files) == SafeFileNames(AllExtractedPaths(targetDir, files))
  {
    if files != [] {
      ArchivesWritten(targetDir, files[..|files| - 1]);
    }
  }

  /** An archive written after a plain file fails: the single path cannot be extended. */
  lemma {:induction false} ArchiveAfterPlainFileFails(targetDir: string, files: seq<UploadedFile>, i: nat, j: nat)
    requires i < j < |files| && !files[i].isZip && files[j].isZip
    ensures WrittenFilePaths(targetDir, files) == Err(AttributeError)
  {
    var p := files[..j + 1];
    assert p[..j] == files[..j];
    assert files[..j][..i + 1] == files[..i + 1];
    assert files[..i + 1][i] == files[i];
    PlainFileThenArchives(targetDir, files[..j], i);
    PropagateWriteError(targetDir, files, j + 1);
  }

  /** After a plain file, the written paths are an error or the single path of one of
      the plain files. */
  lemma {:induction false} PlainFileThenArchives(targetDir: string, files: seq<UploadedFile>, i: nat)
    requires i < |files| && !files[i].isZip
    ensures CollectWrittenPaths(targetDir, files).Err? || CollectWrittenPaths(targetDir, files).value.SinglePath?
    ensures CollectWrittenPaths(targetDir, files).Ok? ==> exists j :: (0 <= j < |files| && !files[j].isZip
      && CollectWrittenPaths(targetDir, files).value == SinglePath(Join(targetDir, files[j].name)))
    decreases |files|
  {
    var last := |files| - 1;
    if i < last && !files[last].isZip {
      assert CollectWrittenPaths(targetDir, files).Ok? ==>
        CollectWrittenPaths(targetDir, files).value == SinglePath(Join(targetDir, files[last].name));
    } else if i < last {
      assert files[..last][i] == files[i];
      PlainFileThenArchives(targetDir, files[..last], i);
      assert CollectWrittenPaths(targetDir, files).Err?;
    } else {
      assert CollectWrittenPaths(targetDir, files).Ok? ==>
        CollectWrittenPaths(targetDir, files).value == SinglePath(Join(targetDir, files[i].name));
    }
  }

  /** Cleaning the characters of a path written into a directory fails: the separator,
      taken as a path of its own, has no base name. */
  lemma CharactersOfJoinFail(targetDir: string, name: string)
    requires targetDir != []
    ensures SafeFileNames(Characters(Join(targetDir, name))) == Err(IndexError)
  {
    var path := Join(targetDir, name);
    var k: int;
    if |name| > 0 && name[0] == '/' {
      k := 0;
    } else {
      JoinHasSeparator(targetDir, name);
      k :| 0 <= k < |path| && path[k] == '/';
    }
    assert Basename(Characters(path)[k]) == [] by {
      assert Characters(path)[k] == "/";
      assert RFind("/", '/') == 0;
    }
    SafeFileNamesSpec(Characters(path));
  }

  /** A single plain file written into a directory fails: its path is iterated character
      by character, and the separator has no base name. */
  lemma PlainFileIntoDirectoryFails(targetDir: string, f: UploadedFile)
    requires !f.isZip && targetDir != []
    ensures WrittenFilePaths(targetDir, [f]) == Err(IndexError)
  {
    assert [f][..0] == [];
    assert CollectWrittenPaths(targetDir, [f]) == Ok(SinglePath(Join(targetDir, f.name)));
    CharactersOfJoinFail(targetDir, f.name);
  }

  /** As written, no upload that holds a plain file is written successfully into a
      directory: an archive after it fails on `extend`, and otherwise the last plain
      file's path is cleaned character by character. */
  lemma PlainFileUploadFails(targetDir: string, files: seq<UploadedFile>, i: nat)
    requires i < |files| && !files[i].isZip && targetDir != []
    ensures WrittenFilePaths(targetDir, files) == Err(AttributeError)
      || WrittenFilePaths(targetDir, files) == Err(IndexError)
  {
    PlainFileThenArchives(targetDir, files, i);
    if CollectWrittenPaths(targetDir, files).Ok? {
      var j :| 0 <= j < |files| && !files[j].isZip
        && CollectWrittenPaths(targetDir, files).value == SinglePath(Join(targetDir, files[j].name));
      CharactersOfJoinFail(targetDir, files[j].name);
    }
  }

  /** What one file evidently should add to the written paths: an archive its
      extracted members, a plain file its own path. */
  function IntendedPathsOf(targetDir: string, f: UploadedFile): seq<string> {
    if f.isZip then ExtractedPaths(targetDir, MemberNames(f.members)) else [Join(targetDir, f.name)]
  }

  /** The first loop with `written_paths.append(path)` for a plain file. */
  function IntendedWrittenPaths(targetDir: string, files: seq<UploadedFile>): seq<string> {
    if files == [] then []
    else IntendedWrittenPaths(targetDir, files[..|files| - 1]) + IntendedPathsOf(targetDir, files[|files| - 1])
  }

  /** `write_uploaded_files_to_disk` with that correction. */
  function IntendedWrittenFilePaths(targetDir: string, files: seq<UploadedFile>): Result<seq<string>> {
    SafeFileNames(IntendedWrittenPaths(targetDir, files))
  }

  /** On uploads made only of archives the correction changes nothing. */
  lemma {:induction false} IntendedAgreesOnArchives(targetDir: string, files: seq<UploadedFile>)
    requires forall i :: 0 <= i < |files| ==> files[i].isZip
    ensures IntendedWrittenPaths(targetDir, files) == AllExtractedPaths(targetDir, files)
    ensures IntendedWrittenFilePaths(targetDir, files) == WrittenFilePaths(targetDir, files)
  {
    if files != [] {
      IntendedAgreesOnArchives(targetDir, files[..|files| - 1]);
    }
    ArchivesWritten(targetDir, files);
  }

  /** The corrected paths of plain files are their joined paths, one per file, in order. */
  lemma {:induction false} IntendedPlainPaths(targetDir: string, files: seq<UploadedFile>)
    requires forall i :: 0 <= i < |files| ==> !files[i].isZip
    ensures |IntendedWrittenPaths(targetDir, files)| == |files|
    ensures forall i :: 0 <= i < |files| ==> IntendedWrittenPaths(targetDir, files)[i] == Join(targetDir, files[i].name)
  {
    if files != [] {
      var init := files[..|files| - 1];
      IntendedPlainPaths(targetDir, init);
      assert forall i :: 0 <= i < |init| ==> init[i] == files[i];
    }
  }

  /** Plain files with clean names are written under their own paths, in upload order;
      one an upload as written always fails on. */
  lemma IntendedPlainFilesWritten(targetDir: string, files: seq<UploadedFile>)
    requires forall i :: 0 <= i < |files| ==> !files[i].isZip && IsCleanName(files[i].name)
    ensures IntendedWrittenFilePaths(targetDir, files).Ok?
    ensures |IntendedWrittenFilePaths(targetDir, files).value| == |files|
    ensures forall i :: 0 <= i < |files| ==>
      IntendedWrittenFilePaths(targetDir, files).value[i] == Join(targetDir, files[i].name)
  {
    var paths := IntendedWrittenPaths(targetDir, files);
    IntendedPlainPaths(targetDir, files);
    forall i | 0 <= i < |files|
      ensures Basename(paths[i]) == files[i].name
      ensures EnsureSafeFileName(paths[i]) == Ok(paths[i])
    {
      CleanNameInJoin(targetDir, files[i].name);
    }
    SafeFileNamesSpec(paths);
  }

  /** A clean name joined onto a directory is already safe. */
  lemma CleanNameInJoin(targetDir: string, name: string)
    requires IsCleanName(name)
    ensures Basename(Join(targetDir, name)) == name
    ensures EnsureSafeFileName(Join(targetDir, name)) == Ok(Join(targetDir, name))
  {
    assert !IsNameChar('/');
    BasenameOfJoin(targetDir, name);
    EnsureSafeFileNameSpec(Join(targetDir, name));
  }

  lemma JoinHasSeparator(a: string, b: string)
    requires a != [] && (|b| == 0 || b[0] != '/')
    ensures '/' in Join(a, b)
  {
    var r := Join(a, b);
    if a[|a| - 1] == '/' {
      assert r[..|a|] == a;
      assert r[|a| - 1] == '/';
    } else {
      assert r == a + "/" + b;
      assert r[|a|] == '/';
    }
  }
}
