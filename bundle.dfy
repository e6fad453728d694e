/** The inputs of the upload code: uploaded files, the members of an
    archive, and what the KML parser makes of a document.

    No bytes are modelled. A file carries its declared name, whether
    `zipfile.is_zipfile` accepts it, the members `namelist()` lists when it
    is an archive, and the outcome of parsing its bytes as KML; an archive
    member carries its name and the outcome of parsing what `read` returns
    for it. */
module Bundle {
  import opened Outcomes

  /** One `kml:GroundOverlay` element, in document order. */
  datatype GroundOverlay = GroundOverlay(
    /** the first text of `kml:Icon/kml:href`, if there is one */
    href: Option<string>,
    /** whether the element is a direct child of the root's `kml:Document` */
    underDocument: bool,
    /** the first texts of `kml:LatLonBox/kml:north` (and so on), if present */
    north: Option<string>,
    south: Option<string>,
    east: Option<string>,
    west: Option<string>)

  /** A parsed document, reduced to its ground overlays (`//kml:GroundOverlay`) and to
      what `len()` of its root element counts: the root's child nodes, elements,
      comments and processing instructions alike. */
  datatype KmlDoc = KmlDoc(groundOverlays: seq<GroundOverlay>, rootChildren: nat)

  /** The outcome of `get_kml_doc` / `_get_kml_doc` on some bytes. `Unparsable` stands
      for every way the helper raises: bytes the XML parser rejects, and a document
      without a default namespace, on which `ns.pop(None)` raises `KeyError`. */
  datatype KmlParse = Parsed(doc: KmlDoc) | Unparsable

  datatype ArchiveMember = ArchiveMember(name: string, kml: KmlParse)

  datatype UploadedFile = UploadedFile(
    name: string,
    isZip: bool,
    members: seq<ArchiveMember>,
    kml: KmlParse)

  function NameOf(f: UploadedFile): string { f.name }

  function MemberNameOf(m: ArchiveMember): string { m.name }

  /** `[f.name for f in files]`. */
  function Names(files: seq<UploadedFile>): (r: seq<string>)
    ensures |r| == |files|
    ensures forall i :: 0 <= i < |files| ==> r[i] == files[i].name
  {
    seq(|files|, i requires 0 <= i < |files| => files[i].name)
  }

  /** `zip_handler.namelist()`. */
  function MemberNames(members: seq<ArchiveMember>): (r: seq<string>)
    ensures |r| == |members|
    ensures forall i :: 0 <= i < |members| ==> r[i] == members[i].name
  {
    seq(|members|, i requires 0 <= i < |members| => members[i].name)
  }
}
