/**
 * The pure part of `main`: find `doc.kml` in the archive and the `Document` in
 * its tree, collect the records of the folder tree and then those of the
 * placemarks directly under the document, and derive the tallies, the
 * exported lists and the GeoJSON collection from them.
 */
module Driver {
  import opened Wrappers
  import opened Place
  import opened Classification
  import opened Kml
  import opened Description
  import opened Placemarks
  import opened Walker
  import opened GeoJson
  import opened Ordering
  import opened Summary

  /** A parsed KML file: the root `kml` element, when there is one. */
  datatype KmlFile = KmlFile(kml: Option<KmlRoot>)

  /** The `kml` element and its `Document` child. */
  datatype KmlRoot = KmlRoot(document: Option<Document>)

  /** The ways `main` aborts before any record is built. */
  datatype Error =
    | DocKmlMissing    // no `doc.kml` entry in the archive
    | NoKmlElement     // `kml.kml` is undefined, so reading `.Document` throws a TypeError
    | DocumentMissing  // the `kml` element has no `Document`

  /** The messages `main` throws with. The TypeError's text is the engine's own. */
  function Message(e: Error): Option<string> {
    match e
    case DocKmlMissing => Some("doc.kml not found in KMZ file")
    case DocumentMissing => Some("Invalid KML structure: Document not found")
    case NoKmlElement => None
  }

  /** The name of the KML entry inside a KMZ archive. */
  const DocKml: string := "doc.kml"

  /** Everything `main` computes from the records. */
  datatype Output = Output(
    restaurants: seq<Restaurant>,
    restaurantCount: nat,
    categoryCount: map<string, nat>,
    statusCount: map<string, nat>,
    cityCount: map<string, nat>,
    cities: seq<string>,
    categories: seq<string>,
    geojson: FeatureCollection)

  /** Lines 317-336: the folder tree first, then the document's own placemarks, which are
      classified under the label `'Unknown'`. The records are those built from the
      document's placemarks in the order they are handled, one for each placemark that
      builds, and the folder tree's records come first, unchanged. */
  function Collect(m: Matchers, d: Document): (r: seq<Restaurant>)
    ensures r == FolderRecords(m, d) + Built(Parser(m), OwnItems(d))
    ensures r == Built(Parser(m), FolderItems(d) + OwnItems(d))
    ensures |r| == CountBuilt(Parser(m), FolderItems(d) + OwnItems(d))
  {
    BuiltAppend(Parser(m), FolderItems(d), OwnItems(d));
    BuiltCount(Parser(m), FolderItems(d) + OwnItems(d));
    match d.placemark
    case Some(ps) =>
      AddPlacemarksIsBuilt(Parser(m), AsSeq(ps), DocumentFolder, FolderRecords(m, d));
      AddPlacemarks(Parser(m), AsSeq(ps), DocumentFolder, FolderRecords(m, d))
    case None =>
      assert FolderRecords(m, d) + [] == FolderRecords(m, d);
      FolderRecords(m, d)
  }

  /** Lines 320-322: the records of the folder tree, if the document has folders. */
  function FolderRecords(m: Matchers, d: Document): (r: seq<Restaurant>)
    ensures r == Built(Parser(m), FolderItems(d))
  {
    match d.folder
    case Some(f) => ParseFolders(m, f, [])
    case None => []
  }

  /** The outputs derived from the records. */
  function Report(rs: seq<Restaurant>): (o: Output)
    ensures o.restaurants == rs && o.restaurantCount == |o.geojson.features| == |rs|
    ensures ValidCollection(o.geojson)
    ensures StrictlySorted(o.cities) && StrictlySorted(o.categories)
  {
    Output(rs, |rs|, Count(ByCategory, rs), Count(ByStatus, rs), Count(ByCity, rs),
           CityList(rs), CategoryList(rs), ToGeoJson(rs))
  }

  /** `main`, with the archive already unzipped and every entry already parsed as XML. */
  function Run(m: Matchers, archive: map<string, KmlFile>): (r: Result<Output, Error>)
    ensures r.Failure? <==> DocKml !in archive || archive[DocKml].kml.None?
                            || archive[DocKml].kml.value.document.None?
    ensures r.Success? ==> r.value.restaurants == Collect(m, archive[DocKml].kml.value.document.value)
  {
    if DocKml !in archive then Failure(DocKmlMissing)
    else match archive[DocKml].kml
      case None => Failure(NoKmlElement)
      case Some(root) =>
        match root.document
        case None => Failure(DocumentMissing)
        case Some(d) => Success(Report(Collect(m, d)))
  }

  /** The checks come in order: a missing entry is reported before anything about its
      contents. */
  lemma RunErrors(m: Matchers, archive: map<string, KmlFile>)
    ensures DocKml !in archive ==> Run(m, archive) == Failure(DocKmlMissing)
    ensures DocKml in archive && archive[DocKml].kml.None? ==> Run(m, archive) == Failure(NoKmlElement)
    ensures DocKml in archive && archive[DocKml].kml.Some? && archive[DocKml].kml.value.document.None?
            ==> Run(m, archive) == Failure(DocumentMissing)
    ensures Message(DocKmlMissing) == Some("doc.kml not found in KMZ file")
  {
  }

  /** The placemarks of the folder tree, each with its nearest folder's name. */
  function FolderItems(d: Document): seq<Item> {
    match d.folder
    case Some(f) => ItemsOf(f, 0)
    case None => []
  }

  /** The document's own placemarks, labelled `'Unknown'`. */
  function OwnItems(d: Document): (r: seq<Item>)
    ensures forall i :: 0 <= i < |r| ==> r[i].folderName == DocumentFolder
  {
    match d.placemark
    case Some(ps) => Label(AsSeq(ps), DocumentFolder)
    case None => []
  }

  /** Every record built from a placemark labelled `'Unknown'` is classified as
      other / unknown. */
  lemma UnknownLabelUnclassified(m: Matchers, items: seq<Item>)
    requires forall i :: 0 <= i < |items| ==> items[i].folderName == DocumentFolder
    ensures forall j :: 0 <= j < |Built(Parser(m), items)| ==>
              Built(Parser(m), items)[j].category == Other && Built(Parser(m), items)[j].halalStatus == Unknown
  {
    var rs := Built(Parser(m), items);
    BuiltCount(Parser(m), items);
    forall j | 0 <= j < |rs|
      ensures rs[j].category == Other && rs[j].halalStatus == Unknown
    {
      var i :| 0 <= i < |items| && Parser(m)(items[i].placemark, items[i].folderName) == Some(rs[j]);
      UnknownLabelOne(m, items[i].placemark);
    }
  }

  lemma UnknownLabelOne(m: Matchers, p: Placemark)
    ensures Parser(m)(p, DocumentFolder).Some? ==>
              Parser(m)(p, DocumentFolder).value.category == Other
              && Parser(m)(p, DocumentFolder).value.halalStatus == Unknown
  {
    EmptyAndDocumentFolders();
  }

  /** The records after those of the folder tree are all classified as other / unknown. */
  lemma DocumentPlacemarksUnclassified(m: Matchers, d: Document)
    ensures forall k :: |FolderRecords(m, d)| <= k < |Collect(m, d)| ==>
              Collect(m, d)[k].category == Other && Collect(m, d)[k].halalStatus == Unknown
  {
    var fr := FolderRecords(m, d);
    var own := Built(Parser(m), OwnItems(d));
    UnknownLabelUnclassified(m, OwnItems(d));
    Unclassified(fr, own);
  }

  /** Appending records classified as other / unknown adds only such records. */
  lemma Unclassified(a: seq<Restaurant>, b: seq<Restaurant>)
    requires forall j :: 0 <= j < |b| ==> b[j].category == Other && b[j].halalStatus == Unknown
    ensures forall k :: |a| <= k < |a + b| ==> (a + b)[k].category == Other && (a + b)[k].halalStatus == Unknown
  {
    assert forall k :: |a| <= k < |a + b| ==> (a + b)[k] == b[k - |a|];
  }

  /** The GeoJSON collection has one feature per record, in order, and each reads back as
      its record. */
  lemma ReportFeatures(rs: seq<Restaurant>)
    ensures forall i :: 0 <= i < |rs| ==>
              RecordOf(Report(rs).geojson.features[i], rs[i].address, rs[i].description) == Some(rs[i])
  {
    ToGeoJsonInOrder(rs);
  }
}
