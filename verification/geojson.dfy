/**
 * `toGeoJSON`: the records as a GeoJSON FeatureCollection (RFC 7946), one
 * Point feature per record, in order. A feature carries the record's id twice
 * (as the feature id and as a property) and a subset of its fields; address,
 * description and source are not projected.
 */
module GeoJson {
  import opened Wrappers
  import opened Place

  /** The `type` member values of section 1.4 of RFC 7946 used here. */
  const FeatureCollectionType: string := "FeatureCollection"
  const FeatureType: string := "Feature"
  const PointType: string := "Point"

  /** A geometry object: its `type` and its `coordinates`. */
  datatype Geometry = Geometry(kind: string, coordinates: seq<real>)

  /** The `properties` member of a feature. */
  datatype Properties = Properties(
    id: string,
    name: string,
    city: Option<string>,
    halalStatus: HalalStatus,
    category: PlaceCategory,
    openingHours: Option<string>,
    phone: Option<string>)

  /** A feature object: `type`, `id`, `geometry`, `properties`. */
  datatype Feature = Feature(kind: string, id: string, geometry: Geometry, properties: Properties)

  /** A feature collection object: `type` and `features`. */
  datatype FeatureCollection = FeatureCollection(kind: string, features: seq<Feature>)

  /** Section 3.1.1 of RFC 7946: a position has two or more numbers, longitude first,
      then latitude. */
  predicate ValidPosition(p: seq<real>) {
    |p| >= 2
  }

  /** Section 3.1.2 of RFC 7946: a Point's coordinates are a single position. */
  predicate ValidPoint(g: Geometry) {
    g.kind == PointType && ValidPosition(g.coordinates)
  }

  /** Section 3.2 of RFC 7946: a feature has type "Feature" and a geometry; here the geometry is a Point. */
  predicate ValidFeature(f: Feature) {
    f.kind == FeatureType && ValidPoint(f.geometry)
  }

  /** Section 3.3 of RFC 7946: a feature collection has type "FeatureCollection" and an array of features. */
  predicate ValidCollection(c: FeatureCollection) {
    c.kind == FeatureCollectionType && forall i :: 0 <= i < |c.features| ==> ValidFeature(c.features[i])
  }

  /** The longitude and latitude a valid position holds. */
  function Longitude(p: seq<real>): real
    requires ValidPosition(p)
  {
    p[0]
  }

  function Latitude(p: seq<real>): real
    requires ValidPosition(p)
  {
    p[1]
  }

  /** The feature `toGeoJSON` makes of one record. */
  function FeatureOf(r: Restaurant): (f: Feature)
    ensures ValidFeature(f)
    ensures f.id == f.properties.id == r.id
    ensures Longitude(f.geometry.coordinates) == r.longitude && Latitude(f.geometry.coordinates) == r.latitude
  {
    Feature(FeatureType, r.id, Geometry(PointType, [r.longitude, r.latitude]),
            Properties(r.id, r.name, r.city, r.halalStatus, r.category, r.openingHours, r.phone))
  }

  /** `toGeoJSON(restaurants)`. */
  function ToGeoJson(rs: seq<Restaurant>): (c: FeatureCollection)
    ensures ValidCollection(c)
    ensures |c.features| == |rs|
    ensures forall i :: 0 <= i < |rs| ==> c.features[i].id == rs[i].id
  {
    FeatureCollection(FeatureCollectionType, seq(|rs|, i requires 0 <= i < |rs| => FeatureOf(rs[i])))
  }

  /** The record a feature came from, given the two fields the feature does not carry. */
  function RecordOf(f: Feature, address: Option<string>, description: Option<string>): (r: Option<Restaurant>)
    ensures r.Some? <==> ValidFeature(f) && f.id == f.properties.id
  {
    if ValidFeature(f) && f.id == f.properties.id then
      var p := f.properties;
      Some(Place.Restaurant.Restaurant(
        p.id, p.name, p.city, address,
        Latitude(f.geometry.coordinates), Longitude(f.geometry.coordinates),
        p.halalStatus, p.category, p.openingHours, p.phone, description))
    else None
  }

  /** A feature keeps every field but address and description: with those two supplied,
      the record reads back from its feature. */
  lemma FeatureRoundTrip(r: Restaurant)
    ensures RecordOf(FeatureOf(r), r.address, r.description) == Some(r)
  {
  }

  /** Two records have the same feature exactly when they differ at most in address and
      description. */
  lemma FeatureForgets(r1: Restaurant, r2: Restaurant)
    ensures FeatureOf(r1) == FeatureOf(r2) <==> r1.(address := r2.address, description := r2.description) == r2
  {
    if FeatureOf(r1) == FeatureOf(r2) {
      FeatureRoundTrip(r1);
      FeatureRoundTrip(r2);
    }
  }

  /** The collection lists the records' features in order: feature `i` reads back as
      record `i`. */
  lemma ToGeoJsonInOrder(rs: seq<Restaurant>)
    ensures forall i :: 0 <= i < |rs| ==>
              RecordOf(ToGeoJson(rs).features[i], rs[i].address, rs[i].description) == Some(rs[i])
  {
    forall i | 0 <= i < |rs|
      ensures RecordOf(ToGeoJson(rs).features[i], rs[i].address, rs[i].description) == Some(rs[i])
    {
      FeatureRoundTrip(rs[i]);
    }
  }

  /** Projection commutes with concatenation: it is a map over the list. */
  lemma ToGeoJsonAppend(a: seq<Restaurant>, b: seq<Restaurant>)
    ensures ToGeoJson(a + b).features == ToGeoJson(a).features + ToGeoJson(b).features
  {
  }
}
