/**
 * The KML tree as the XML parser hands it over. An element that occurs once
 * arrives as a single node and one that repeats as an array, hence `Many`.
 * Absent elements and text are `None`.
 */
module Kml {
  import opened Wrappers

  /** A child that may be one node or a list of nodes. */
  datatype Many<T> = One(item: T) | Many(items: seq<T>)

  /** `Array.isArray(x) ? x : [x]`: a single node is a one-element list. */
  function AsSeq<T>(m: Many<T>): (r: seq<T>)
    ensures forall x :: x in r ==> x < m
    ensures m.One? ==> r == [m.item]
    ensures m.Many? ==> r == m.items
  {
    match m
    case One(x) => [x]
    case Many(xs) => xs
  }

  /** `<Point>`, with the text of its `<coordinates>`. */
  datatype Point = Point(coordinates: Option<string>)

  /** `<Placemark>`: name, location and HTML description. */
  datatype Placemark = Placemark(name: Option<string>, point: Option<Point>, description: Option<string>)

  /** `<Folder>`: an optional name, its placemarks and its sub-folders. */
  datatype Folder = Folder(name: Option<string>, placemark: Option<Many<Placemark>>, folder: Option<Many<Folder>>)

  /** `<Document>`: top-level folders and placemarks directly under the document. */
  datatype Document = Document(folder: Option<Many<Folder>>, placemark: Option<Many<Placemark>>)
}
