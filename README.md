# GeoNode upload validation, modelled in Dafny

This project models the part of GeoNode that decides what to do with the files a
user uploads. It also models how the social-account profile extractors read user
data.

- **Upload handlers, newer module** (`geonode/upload/uploadhandlers.py`), module
  `UploadHandlers`:
  - choosing a handler by file extension, with priority zip, kmz, shp, kml, then generic;
  - cleaning file names (`clean_name`, `ensure_safe_file_name`);
  - finding the image of a KML ground overlay;
  - validating zip, kmz, kml and shapefile uploads;
  - collecting the paths that `write_uploaded_files_to_disk` returns.
- **Upload handlers, older module** (`geonode/layers/uploadhandlers.py`), module
  `LayerUploadHandlers`:
  - `get_upload_handler`, which looks at the base file's zip-ness and extension;
  - validating KML documents and their single ground overlay;
  - validating shapefile components (`_validate_shapefile_components`);
  - the constructors of the zipped-file, kmz, kml and shapefile handlers;
  - the `result` dictionaries of `save_django_files` and `save_zipped_file`.
- **Ingestion handlers** (`geonode/upload/ingestionhandlers.py`), module
  `IngestionHandlers`:
  - `get_ingestion_handler`, and the base paths a shapefile handler keeps;
  - the layer-name candidate;
  - extracting the ground-overlay bounding box from a KML document;
  - the `gdal_translate` command and output path of the GeoTIFF conversion;
  - `preprocess_files`.
- **Profile extractors** (`geonode/people/profileextractors.py`), module
  `ProfileExtractors`:
  - the base, Facebook and LinkedIn extractors, as chains of `dict.get` lookups on
    the account data.

Shared modules:

- `PyStrings` gives the Python semantics the code relies on: `os.path.basename`,
  `split`, `dirname`, `join` and `splitext`, plus `str.lower`, `endswith` and `strip`.
- `Bundle` describes an uploaded file. The model cannot read file contents, so two
  facts about each file are inputs:
  - whether `zipfile.is_zipfile` accepts it;
  - what parsing it as KML yields (`Parsed(doc)` or `Unparsable`).

  An archive is given as its member names, plus the KML parse of each member.
- `SeqSearch` holds first/last-index searches and the "last value per key" loop.
- `Outcomes` holds `Result` and the Python exceptions the code raises. Each one is
  tagged with the reason its message describes.

The code is Python 2 (it calls `itervalues`), whose dictionaries have no defined
iteration order. The loops over
`SHAPEFILE_COMPONENTS`, `KML_IMAGE_EXTENSIONS` and `resources.items()` are modelled
as loops that pick the next key freely. Each such method is therefore proved for
every iteration order. Where the outcome depends on the order (which missing
mandatory component is reported, the order of the base paths), the contract states
every outcome the code can produce.

## Model

| member | source | states |
|---|---|---|
| UploadHandlers.ReplaceRunsAllowed | geonode/upload/uploadhandlers.py:55-61 | after the substitution, every character is in `[a-zA-Z._0-9]` |
| UploadHandlers.ReplaceRunsKeepsAllowed | geonode/upload/uploadhandlers.py:55-61 | a string made only of allowed characters is left unchanged by the substitution |
| UploadHandlers.ReplaceRunsConcat | geonode/upload/uploadhandlers.py:55-61 | the substitution scans left to right: the result for `x + y` is the result for `x` followed by the result for `y`, in the scan state `x` left |
| UploadHandlers.ReplaceWholeRun | geonode/upload/uploadhandlers.py:55-61 | a run of disallowed characters becomes one `_`, or nothing when it continues a run already replaced |
| UploadHandlers.ReplaceMaximalRun | geonode/upload/uploadhandlers.py:55-61 | each maximal run of disallowed characters between allowed ones becomes exactly one `_` |
| UploadHandlers.CleanName | geonode/upload/uploadhandlers.py:55-61 | `clean_name` fails, with `IndexError`, exactly on the empty name |
| UploadHandlers.CleanNameIsClean | geonode/upload/uploadhandlers.py:55-61 | a cleaned name is non-empty, holds only `[a-zA-Z._0-9]` and does not start with a digit |
| UploadHandlers.CleanNameFixedPoint | geonode/upload/uploadhandlers.py:55-61 | a name comes back unchanged if and only if it is already clean |
| UploadHandlers.CleanNameIdempotent | geonode/upload/uploadhandlers.py:55-61 | cleaning a cleaned name changes nothing |
| UploadHandlers.CleanNameReplacesRun | geonode/upload/uploadhandlers.py:55-61 | inside a clean prefix, a run of other characters becomes one `_` and the rest is substituted |
| UploadHandlers.CleanNameLeadingDigit | geonode/upload/uploadhandlers.py:55-61 | an otherwise allowed name that starts with a digit only gains a leading `_` |
| UploadHandlers.CleanNameLeadingRun | geonode/upload/uploadhandlers.py:55-61 | a leading run outside `[a-zA-Z._]` becomes one `_`, digits in it included |
| UploadHandlers.EnsureSafeFileName | geonode/upload/uploadhandlers.py:64-73 | fails, with `IndexError`, exactly when the path has an empty base name |
| UploadHandlers.EnsureSafeFileNameSpec | geonode/upload/uploadhandlers.py:64-73 | the safe path keeps the directory, and its base name is the cleaned (clean) base name; it equals the input if and only if the base name was clean |
| UploadHandlers.SafeNameInDirectory | geonode/upload/uploadhandlers.py:69-72 | joining a clean name onto the directory yields a path with that base name and that directory |
| UploadHandlers.ExtractedPaths | geonode/upload/uploadhandlers.py:76-79 | one path per member name, each the member joined onto the destination |
| UploadHandlers.GetFileExtension | geonode/upload/uploadhandlers.py:82-83 | the extension holds no dot and no slash, and is lower-case |
| UploadHandlers.GetFileExtensionSpec | geonode/upload/uploadhandlers.py:82-83 | the extension is the lower-cased text after the extension dot of the base name, and it is empty when there is none |
| UploadHandlers.ExtensionOfSimpleName | geonode/upload/uploadhandlers.py:82-83 | `stem.ext` has the extension `ext` lower-cased |
| UploadHandlers.Extensions | geonode/upload/uploadhandlers.py:87 | there is one extension per uploaded file, in order |
| UploadHandlers.FileByExtension | geonode/upload/uploadhandlers.py:320-328 | nothing is found exactly when no file has the extension; otherwise the first file that has it is returned |
| UploadHandlers.KmlImageExtensionsListed | geonode/upload/uploadhandlers.py:38-43 | the image aliases are exactly tif, tiff, geotif, geotiff, jpg, jpeg, png and gif |
| UploadHandlers.KmlImageFileSpec | geonode/upload/uploadhandlers.py:103-113 | no image is found if and only if no name has an image extension; otherwise the first such name is found |
| UploadHandlers.LookForKmlImageFile | geonode/upload/uploadhandlers.py:103-113 | the nested loops, for any dictionary order, return the first name with an image extension |
| UploadHandlers.IsImageFormat | geonode/upload/uploadhandlers.py:107-110 | the inner loop over the formats finds an alias exactly when the extension is an image alias |
| UploadHandlers.ValidateKmlGroundOverlay | geonode/upload/uploadhandlers.py:116-138 | unparsable KML gives a parse error. Otherwise the document passes if and only if it has no overlay, or one overlay whose stripped href is the image path. More overlays, or a wrong image, give their own errors |
| UploadHandlers.PaddedHrefAccepted | geonode/upload/uploadhandlers.py:116-138 | whitespace around the href of a document's single overlay is ignored |
| UploadHandlers.MissingHrefRejected | geonode/upload/uploadhandlers.py:116-138 | an overlay without an href never matches a found image |
| UploadHandlers.LastByExtension | geonode/upload/uploadhandlers.py:192-196 | the keys are exactly the component extensions some item has, and each maps to the last item with that extension |
| UploadHandlers.CollectShapefileComponents | geonode/upload/uploadhandlers.py:192-196 | the nested collection loops, for any dictionary order, yield `LastByExtension` |
| UploadHandlers.KeepLastWithExtension | geonode/upload/uploadhandlers.py:193-196 | the inner loop sets the entry to the last item with the extension, or leaves the map unchanged |
| UploadHandlers.NewKmlHandler | geonode/upload/uploadhandlers.py:247-254 | fails with `IndexError` exactly when no name ends with "kml". Otherwise it keeps the first uploaded file whose name ends with "kml". It keeps an image file exactly when `look_for_kml_image_file` finds a name, and that file is the first one with that name |
| UploadHandlers.KmlImageUpload | geonode/upload/uploadhandlers.py:249-253 | an image file is kept exactly when `look_for_kml_image_file` finds a name, and it is the first uploaded file with that name |
| UploadHandlers.GetUploadHandler | geonode/upload/uploadhandlers.py:86-100 | the only failures are an invalid zip file and an invalid kmz file |
| UploadHandlers.UploadHandlerPriority | geonode/upload/uploadhandlers.py:86-100 | the handler follows the priority zip, kmz, shp, kml, generic. The first file with the winning extension is the one handled. A kml upload always gets a kml handler, and it is the one `KmlFileHandler` builds |
| UploadHandlers.KmlExtensionHasKmlSuffix | geonode/upload/uploadhandlers.py:98-99 | a file with the `kml` extension ends in "kml" once lower-cased, so the kml handler finds it |
| UploadHandlers.CheckComponentNames | geonode/upload/uploadhandlers.py:201-214 | passes if and only if every mandatory component is present and every present one has the shapefile's base name. A failure names a missing mandatory component or a mismatching one |
| UploadHandlers.ValidateZipHandler | geonode/upload/uploadhandlers.py:188-214 | accepts the archive's member names if and only if they hold a shp and pass the component check. A missing shp gives its own error |
| UploadHandlers.ZipShapefileInDirectoryRejected | geonode/upload/uploadhandlers.py:197-214 | a shapefile inside a directory of the zip is always rejected |
| UploadHandlers.NewShapefileHandler | geonode/upload/uploadhandlers.py:279-285 | the handler keeps, per component extension, the last uploaded file that has it |
| UploadHandlers.ComponentNames | geonode/upload/uploadhandlers.py:301-313 | the components' names under the same keys |
| UploadHandlers.ValidateShapefileHandler | geonode/upload/uploadhandlers.py:287-313 | without a shp the upload fails. With a shp it passes if and only if the mandatory components are present and every component has the shp's base name |
| UploadHandlers.KmzValidation | geonode/upload/uploadhandlers.py:227-239 | no kml member gives an error; a kml member and no image member pass; there are no other errors than the four listed |
| UploadHandlers.KmzValidationWithImage | geonode/upload/uploadhandlers.py:227-239 | with an image member present, the outcome is that of validating the first kml member against the first image member's name |
| UploadHandlers.ValidateKmzHandler | geonode/upload/uploadhandlers.py:227-239 | the validation yields `KmzValidation` |
| UploadHandlers.KmzWithReferencedImageAccepted | geonode/upload/uploadhandlers.py:227-239 | a kmz is accepted when its first kml names its first image member |
| UploadHandlers.ValidateFiles | geonode/upload/uploadhandlers.py:160-313 | each handler validates as its own `validate_files` says; the generic handler and a kml without an image always pass |
| UploadHandlers.CollectWrittenPaths | geonode/upload/uploadhandlers.py:143-153 | only `AttributeError` can fail; a last plain file leaves its single path |
| UploadHandlers.WritePaths | geonode/upload/uploadhandlers.py:143-153 | the first loop yields `CollectWrittenPaths` |
| UploadHandlers.SafeFileNamesSpec | geonode/upload/uploadhandlers.py:154-156 | succeeds if and only if every path has a base name, with the safe name of each, in order; otherwise fails with `IndexError` |
| UploadHandlers.EnsureSafeFileNames | geonode/upload/uploadhandlers.py:154-156 | the second loop yields `SafeFileNames` |
| UploadHandlers.Characters | geonode/upload/uploadhandlers.py:155 | iterating a string yields its characters one by one |
| UploadHandlers.WriteUploadedFilesToDisk | geonode/upload/uploadhandlers.py:141-157 | returns `WrittenFilePaths` |
| UploadHandlers.PropagateWriteError | geonode/upload/uploadhandlers.py:143-153 | a failure on a prefix of the files is the failure of the whole upload |
| UploadHandlers.PropagateSafeNameError | geonode/upload/uploadhandlers.py:154-156 | the first unsafe path makes the loop fail with `IndexError` |
| UploadHandlers.ArchivesWritten | geonode/upload/uploadhandlers.py:141-157 | an upload made only of archives yields the safe paths of all members, in order |
| UploadHandlers.ArchiveAfterPlainFileFails | geonode/upload/uploadhandlers.py:147-153 | an archive after a plain file fails with `AttributeError` |
| UploadHandlers.PlainFileThenArchives | geonode/upload/uploadhandlers.py:147-153 | after a plain file, the collected paths are an error or the single path of one plain file |
| UploadHandlers.CharactersOfJoinFail | geonode/upload/uploadhandlers.py:154-156 | cleaning a joined path character by character fails on its separator |
| UploadHandlers.PlainFileIntoDirectoryFails | geonode/upload/uploadhandlers.py:141-157 | a single plain file written into a directory fails with `IndexError` |
| UploadHandlers.PlainFileUploadFails | geonode/upload/uploadhandlers.py:141-157 | as written, every upload that holds a plain file fails when the target directory's name is non-empty |
| UploadHandlers.IntendedAgreesOnArchives | geonode/upload/uploadhandlers.py:141-157 | on uploads of archives only, the corrected definition agrees with the code as written |
| UploadHandlers.IntendedPlainPaths | geonode/upload/uploadhandlers.py:147-153 | with the correction, plain files contribute their joined paths, one each, in order |
| UploadHandlers.IntendedPlainFilesWritten | geonode/upload/uploadhandlers.py:141-157 | with the correction, plain files with clean names are returned under their own paths, in upload order |
| UploadHandlers.CleanNameInJoin | geonode/upload/uploadhandlers.py:64-73 | a clean name joined onto a directory is already safe |
| LayerUploadHandlers.GetExtensionSpec | geonode/layers/uploadhandlers.py:316-317 | the extension holds no dot or slash; with a dot in front it is what `splitext` splits off |
| LayerUploadHandlers.GetExtensionLowered | geonode/layers/uploadhandlers.py:54 | lower-casing it gives the newer module's extension |
| LayerUploadHandlers.HandlerForExtension | geonode/layers/uploadhandlers.py:55-76 | an archive is a kmz, a zipped file or not implemented; any other file's failure is the unsupported-type error naming it |
| LayerUploadHandlers.HandlerForExtensionTable | geonode/layers/uploadhandlers.py:55-76 | in both directions: a zip with extension kmz gets `KmzHandler`, with zip `ZippedFileHandler`, with anything else `NotImplementedError`. A non-zip with kml, shp or asc gets `KmlHandler`, `ShapefileHandler` or `AsciiHandler`, with tif, tiff, geotif or geotiff `GeotiffHandler`, and with anything else the unsupported-type error |
| LayerUploadHandlers.UploadHandlerByExtension | geonode/layers/uploadhandlers.py:52-76 | `GetUploadHandler`, the definition of `get_upload_handler`, depends only on zip-ness and the lower-cased extension, through `HandlerForExtension` |
| LayerUploadHandlers.ZippedShapefileNotImplemented | geonode/layers/uploadhandlers.py:55-61 | a zip archive named like a shapefile raises `NotImplementedError` |
| LayerUploadHandlers.ValidateGroundOverlayKml | geonode/layers/uploadhandlers.py:356-370 | accepted if and only if the unstripped href is a possible file, and then it is returned. A missing href gives `IndexError`, a wrong one the image-not-found error |
| LayerUploadHandlers.ValidateKml | geonode/layers/uploadhandlers.py:373-387 | no overlay gives the document; one valid overlay gives the document and its image; more overlays, or one invalid overlay, give that error |
| LayerUploadHandlers.PaddedHrefOnlyAcceptedByNewerModule | geonode/layers/uploadhandlers.py:366-369 | a whitespace-padded href is accepted by the newer module and rejected by this one |
| LayerUploadHandlers.ComponentsFoundSpec | geonode/layers/uploadhandlers.py:408-421 | the outer loop's dictionary holds shp and each listed extension that has a companion, mapped to its first companion |
| LayerUploadHandlers.ComponentsFoundKeys | geonode/layers/uploadhandlers.py:408-421 | the dictionary's keys, as in `ComponentsFoundSpec` |
| LayerUploadHandlers.ComponentsFoundValues | geonode/layers/uploadhandlers.py:408-421 | the dictionary's values, as in `ComponentsFoundSpec` |
| LayerUploadHandlers.HasAuxSnoc | geonode/layers/uploadhandlers.py:408 | the entries listed are those of the prefix and of the last one |
| LayerUploadHandlers.FirstMissingMandatorySpec | geonode/layers/uploadhandlers.py:422-428 | nothing is missing if and only if every mandatory entry has a companion; otherwise the first mandatory entry without one is reported |
| LayerUploadHandlers.FirstMissingStable | geonode/layers/uploadhandlers.py:422-428 | once a mandatory entry is missing, later entries do not change the verdict |
| LayerUploadHandlers.ComponentsOfShapefile | geonode/layers/uploadhandlers.py:404-430 | an accepted result maps shp to the shapefile, and every value is one of the paths |
| LayerUploadHandlers.ShapefileComponentsOf | geonode/layers/uploadhandlers.py:390-430 | an accepted result's shp is a `.shp` name from the list, and every value is from the list |
| LayerUploadHandlers.ValidateShapefileComponents | geonode/layers/uploadhandlers.py:390-430 | the function body yields `ShapefileComponentsOf` |
| LayerUploadHandlers.CollectComponents | geonode/layers/uploadhandlers.py:408-428 | the outer loop, stopping at the first missing mandatory entry, yields `ComponentsOfShapefile` |
| LayerUploadHandlers.OuterLoopStep | geonode/layers/uploadhandlers.py:408-428 | one more entry adds its first companion, and fails when it is mandatory and has none |
| LayerUploadHandlers.FindComponent | geonode/layers/uploadhandlers.py:409-421 | the inner loop stops at the first matching path, or runs into its `else` |
| LayerUploadHandlers.ComponentsOfShapefileVerdict | geonode/layers/uploadhandlers.py:408-428 | accepted if and only if dbf and shx have companions; a missing dbf is reported before a missing shx |
| LayerUploadHandlers.ShapefileAdditionalExtensions | geonode/layers/uploadhandlers.py:401-407 | the additional extensions are dbf, shx, prj, xml and sld |
| LayerUploadHandlers.ComponentsOfShapefileValues | geonode/layers/uploadhandlers.py:408-430 | an accepted result holds shp, dbf and shx, plus each optional extension that has a companion, each at its first companion |
| LayerUploadHandlers.ShapefileComponentsErrors | geonode/layers/uploadhandlers.py:398-403 | two `.shp` names give the several-shapefiles error, and no `.shp` name gives `IndexError`; there are no other errors than the four listed |
| LayerUploadHandlers.ShapefileComponentsOfOnlyShp | geonode/layers/uploadhandlers.py:398-407 | a single `.shp` name is judged by its own companions |
| LayerUploadHandlers.ShapefileComponentsAccepted | geonode/layers/uploadhandlers.py:390-430 | accepted if and only if there is a single `.shp` name with dbf and shx companions; a missing one is named |
| LayerUploadHandlers.ShapefileComponentsValues | geonode/layers/uploadhandlers.py:390-430 | the keys and values of an accepted result, stated against the input list |
| LayerUploadHandlers.FirstCompanionOf | geonode/layers/uploadhandlers.py:409-415 | the companion found is the first path with the base name that ends with the extension |
| LayerUploadHandlers.ZippedFileHandlerInit | geonode/layers/uploadhandlers.py:187-198 | a non-archive raises `BadZipFile`; an archive's member names are validated as shapefile components |
| LayerUploadHandlers.KmzHandlerInit | geonode/layers/uploadhandlers.py:201-226 | a non-archive is rejected as an invalid kmz |
| LayerUploadHandlers.KmzWithoutKml | geonode/layers/uploadhandlers.py:210-217 | rejected for having no kml if and only if it has no `.kml` member |
| LayerUploadHandlers.KmzWithSeveralKml | geonode/layers/uploadhandlers.py:218-220 | rejected for several kml if and only if it has two `.kml` members |
| LayerUploadHandlers.KmzHandlerInitOnlyKml | geonode/layers/uploadhandlers.py:221-223 | a single kml is judged against the other members' names, and its name is kept |
| LayerUploadHandlers.KmzHandlerInitAccepted | geonode/layers/uploadhandlers.py:201-226 | accepted if and only if it is an archive with one `.kml` member valid against the others |
| LayerUploadHandlers.KmzWithGroundOverlayAccepted | geonode/layers/uploadhandlers.py:201-226 | a kml whose overlay names its image beside it is accepted |
| LayerUploadHandlers.KmlHandlerInit | geonode/layers/uploadhandlers.py:292-310 | an accepted kml handler keeps only the kml file; `len(result) > 1` is tested on the root element's child count for a vector document |
| LayerUploadHandlers.KmlHandlerOutcomes | geonode/layers/uploadhandlers.py:292-310 | only a kml without overlays whose root has at most one child passes. A root with more children fails with `IndexError` when there are no other files and with `AttributeError` otherwise; a valid overlay fails on `.name` of a string (`AttributeError`) |
| LayerUploadHandlers.FilesNamed | geonode/layers/uploadhandlers.py:235-240 | for each component with an uploaded file of that name, the first such file |
| LayerUploadHandlers.MatchUploadedFiles | geonode/layers/uploadhandlers.py:235-243 | succeeds if and only if every component path names an uploaded file, yielding `FilesNamed`; otherwise names a path without a file |
| LayerUploadHandlers.FilesNamedAmongStep | geonode/layers/uploadhandlers.py:235-240 | one more component adds its first file, if any |
| LayerUploadHandlers.FindFileNamed | geonode/layers/uploadhandlers.py:236-239 | the inner loop stops at the first file with the name |
| LayerUploadHandlers.ShapefileHandlerInit | geonode/layers/uploadhandlers.py:229-245 | a component error propagates; otherwise each component is the first uploaded file of its name |
| LayerUploadHandlers.ExtensionPathsSpec | geonode/layers/uploadhandlers.py:331-353 | the keys are the names' extensions, each mapped to the destination of the last name with it |
| LayerUploadHandlers.SaveDjangoFiles | geonode/layers/uploadhandlers.py:331-341 | the result dictionary is `ExtensionPaths` of the file names |
| LayerUploadHandlers.SaveZippedFile | geonode/layers/uploadhandlers.py:344-353 | a non-archive raises `BadZipFile`; otherwise the result is `ExtensionPaths` of the member names |
| IngestionHandlers.BasePathsStep | geonode/upload/ingestionhandlers.py:95-100 | one more component appends its first path and keeps the base-path invariant |
| IngestionHandlers.CollectBasePaths | geonode/upload/ingestionhandlers.py:91-104 | succeeds if and only if every mandatory component is present, yielding the first path of each component, once each. Otherwise it names a missing mandatory component |
| IngestionHandlers.FindFirstWithExtension | geonode/upload/ingestionhandlers.py:96-100 | the inner loop stops at the first path with the extension |
| IngestionHandlers.BasePathsAreFirstPaths | geonode/upload/ingestionhandlers.py:91-104 | base paths are distinct input paths, and exactly the first path of each component present |
| IngestionHandlers.GetIngestionHandler | geonode/upload/ingestionhandlers.py:49-55 | `TypeError` if and only if there is no shp. Success if and only if the mandatory components are present, giving a shapefile handler with base paths. Any other error names a missing dbf or shx |
| IngestionHandlers.IngestionHandlerFor | geonode/upload/ingestionhandlers.py:49-55 | the same for any extension function |
| IngestionHandlers.MandatoryComponents | geonode/upload/uploadhandlers.py:45-52 | the mandatory components are shp, dbf and shx |
| IngestionHandlers.CandidateNameOfPath | geonode/upload/ingestionhandlers.py:63-69 | for `CandidateName`, the definition of the name `get_name` builds: the candidate name plus the extension is the base name, and it holds no slash |
| IngestionHandlers.BasePathsName | geonode/upload/ingestionhandlers.py:63-69 | a shapefile handler's candidate is the stem of its first base path, a component file |
| IngestionHandlers.EmptyNameHasNoExtension | geonode/upload/ingestionhandlers.py:63-69 | the empty path has no extension |
| IngestionHandlers.ExtractBboxParam | geonode/upload/ingestionhandlers.py:172-177 | fails, with `IndexError`, if and only if no overlay under the document has the field; otherwise gives the first one's value |
| IngestionHandlers.ConvertGroundOverlay | geonode/upload/ingestionhandlers.py:110-143 | succeeds if and only if the KML parses and all four corners exist; errors are a parse error or `IndexError`; the output is `OutputPath` |
| IngestionHandlers.CommandOptions | geonode/upload/ingestionhandlers.py:134-141 | the command is `gdal_translate` with GTiff output and EPSG:4326 |
| IngestionHandlers.CommandCorners | geonode/upload/ingestionhandlers.py:134-141 | in `GdalTranslateCommand`, `-a_ullr` is followed by the corners, and the command ends with input then output |
| IngestionHandlers.ConversionCommand | geonode/upload/ingestionhandlers.py:123-141 | for `BoundingBox` and `GdalTranslateCommand`, the definitions of lines 123-128 and 134-141: a conversion uses west, north, east and south as ulx, uly, lrx and lry, from the image to the output path; the whole command is the `gdal_translate` command for the document's box |
| IngestionHandlers.OutputPathDirectory | geonode/upload/ingestionhandlers.py:129-133 | for `OutputPath`, the definition of the output file name: the GeoTIFF lies in the image's directory |
| IngestionHandlers.OutputPathBasename | geonode/upload/ingestionhandlers.py:129-133 | its base name is the image's stem with `.tif` |
| IngestionHandlers.TifName | geonode/upload/ingestionhandlers.py:129-133 | a stem followed by `.tif` splits back into the two |
| IngestionHandlers.OutputPathExtension | geonode/upload/ingestionhandlers.py:129-133 | `.tif` is the output's extension, and the stem is kept |
| IngestionHandlers.Contribution | geonode/upload/ingestionhandlers.py:159-166 | a non-overlay contributes all its files. An overlay contributes the GeoTIFF of its first auxiliary file, and fails with `IndexError` when it has none. With one, it succeeds exactly when the conversion does, and fails with the conversion's error |
| IngestionHandlers.PreprocessFile | geonode/upload/ingestionhandlers.py:159-166 | one pass of the loop body yields that file's `Contribution` |
| IngestionHandlers.PreprocessFiles | geonode/upload/ingestionhandlers.py:146-169 | the loop yields `Preprocessed` |
| IngestionHandlers.PreprocessedSpec | geonode/upload/ingestionhandlers.py:146-169 | `Preprocessed`, the definition of what `preprocess_files` returns, fails if and only if some contribution fails, with the error of the first failing file in list order. Otherwise the contributions come in order, followed by the archive |
| IngestionHandlers.ArchiveLast | geonode/upload/ingestionhandlers.py:167-168 | the archive is the last path |
| IngestionHandlers.PreprocessedWithoutOverlays | geonode/upload/ingestionhandlers.py:146-169 | without overlays, every file's files are listed, followed by the archive |
| IngestionHandlers.ContributionsWithoutOverlays | geonode/upload/ingestionhandlers.py:159-166 | without overlays, no contribution fails |
| IngestionHandlers.AllFilesOf | geonode/upload/ingestionhandlers.py:159-166 | each file's `all_files()`, in order |
| ProfileExtractors.Get | geonode/people/profileextractors.py:91-92 | `get` fails, with `AttributeError`, exactly on a non-dictionary; otherwise it gives the value under the key, or the default |
| ProfileExtractors.ChainedGetWalks | geonode/people/profileextractors.py:117-122 | the lookup chain gives the value at the path, `""` once a key is missing, and fails only at a level that is not a dictionary |
| ProfileExtractors.ProviderName | geonode/people/profileextractors.py:45-106 | reading `PROVIDER` fails with `AttributeError` exactly on the base class, which spells it `PROVDER` |
| ProfileExtractors.ProviderNamesDistinct | geonode/people/profileextractors.py:89-106 | the Facebook and LinkedIn extractors name different providers |
| ProfileExtractors.NotImplementedFields | geonode/people/profileextractors.py:24-128 | for `Extract`, the definition of every `extract_*` method: a field raises `NotImplementedError` if and only if its extractor does not implement it |
| ProfileExtractors.FlatField | geonode/people/profileextractors.py:87-115 | a one-level field is the value under its key, or `""` |
| ProfileExtractors.LinkedInPosition | geonode/people/profileextractors.py:117-118 | the position is `positions.position.title` |
| ProfileExtractors.LinkedInOrganization | geonode/people/profileextractors.py:120-122 | the organization is `positions.position.company.name` |
| ProfileExtractors.LinkedInProfileBoth | geonode/people/profileextractors.py:124-128 | through `JoinedProfile`, the definition of the join and strip, the profile is the headline and the summary on two lines |
| ProfileExtractors.LinkedInProfileWithoutHeadline | geonode/people/profileextractors.py:124-128 | without a headline, the profile is the stripped summary |
| ProfileExtractors.LinkedInProfileWithoutSummary | geonode/people/profileextractors.py:124-128 | without a summary, the profile is the stripped headline |
| ProfileExtractors.LinkedInProfileEmpty | geonode/people/profileextractors.py:124-128 | with neither, the profile is empty |

## Findings

| source | as written | input that shows it | evidently intended | confidence | as-written member | corrected member |
|---|---|---|---|---|---|---|
| geonode/upload/uploadhandlers.py:153 | a plain file sets `written_paths = path`, replacing the list with a single string. The final loop then cleans that string character by character, and a later archive fails on `str.extend` | any upload into a non-empty directory holding one plain file, for example `a.shp` into `/tmp/d`: the character `/` has an empty base name, so the call raises `IndexError` | `written_paths.append(path)`, so every written file's path is returned | not executed | UploadHandlers.PlainFileUploadFails | UploadHandlers.IntendedPlainFilesWritten |

## Left out

- File I/O is not modelled:
  - writing uploaded chunks to disk;
  - `os.rename`;
  - `zip_handler.extractall`, `extract` and `read`;
  - reading a KML file;
  - the `gdal_translate` subprocess.

  The model keeps only the paths and results these operations produce.
- XML parsing and zip detection are inputs, carried as values in `Bundle`: the
  parse of each KML, and whether `is_zipfile` accepts a file. XPath evaluation is
  reduced to the ground-overlay fields the code reads.
- `Bundle.KmlParse`: `Unparsable`, and the `MalformedKml` error it leads to, stand for
  every way the KML helper raises. That is bytes the XML parser rejects, and also
  well-formed KML without a default namespace, where `ns.pop(None)` raises
  `KeyError` (geonode/layers/uploadhandlers.py:327). The model does not tell these
  exceptions apart.
- A ground overlay is modelled with one `LatLonBox` and one text node per field. The
  first node is what the code reads, and documents with several are not modelled.
- Dictionary iteration order is not fixed. Results that depend on it are stated as
  the set of possible outcomes.
- The handlers' `write_files` and `save_files` are covered through
  `WriteUploadedFilesToDisk` and the save functions. The handler classes that only
  forward calls are not modelled separately.
- These are outside the modelled core:
  - the layer-creation, database and metadata code of the handlers (`get_bbox`,
    `create_layer`, the geotiff and ascii handlers' bodies);
  - `get_valid_layer_name`;
  - the ingestion pipeline;
  - the account adapters.
- `SpatialFile.all_files()` (geonode/upload/files.py) is not part of this model. Its
  result is an input field of `SpatialFile`.
- `LayerUploadHandlers.KmlHandlerInit`: the files other than the base file
  (`i is not kml_file`) are passed in, because object identity is not modelled.
- `IngestionHandlers.CollectBasePaths`: the order of `base_paths` is not stated,
  because it follows the dictionary order.
- `IngestionHandlers.GetIngestionHandler` inherits that. Which mandatory component
  it reports missing is stated only as "one of the missing ones".
- `IngestionHandlers.CandidateName`: only the candidate is modelled. The name
  `get_name` returns after `get_valid_layer_name` depends on the database.
- `ProfileExtractors.ProviderName`: the base class spells the attribute `PROVDER`,
  so reading `PROVIDER` on it raises `AttributeError`. The model states this rather
  than the evident intent.
- Unicode character classes are reduced to ASCII, as for Python 2 byte strings.
  `str.lower` is modelled on ASCII letters only. `str.isdigit` is modelled on `0`-`9`
  only (`UploadHandlers.CleanName`), so a Unicode string such as `u"\u00b2a"` is
  treated differently from the source. `str.strip` removes only space, tab, newline,
  carriage return, vertical tab and form feed (`UploadHandlers.OverlayImagePath`,
  `ProfileExtractors.JoinedProfile`), so `\xa0` in a Unicode string is kept.
