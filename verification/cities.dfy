/**
 * City classification: ten inclusive latitude/longitude rectangles checked
 * in a fixed order; the first that contains the point names its city.
 * A coarse heuristic, not a geocoder: several rectangles overlap and the
 * order decides.
 */
module Cities {
  import opened Wrappers

  /** An inclusive rectangle of latitudes and longitudes labelled with a city. */
  datatype Box = Box(city: string, minLat: real, maxLat: real, minLng: real, maxLng: real)

  predicate InBox(b: Box, lat: real, lng: real) {
    b.minLat <= lat <= b.maxLat && b.minLng <= lng <= b.maxLng
  }

  /** The rectangles in the order they are checked. */
  const Boxes: seq<Box> := [
    Box("Seoul", 37.4, 37.7, 126.8, 127.2),
    Box("Busan", 35.0, 35.3, 128.9, 129.3),
    Box("Incheon", 37.3, 37.6, 126.4, 126.8),
    Box("Daegu", 35.7, 36.0, 128.4, 128.8),
    Box("Daejeon", 36.2, 36.5, 127.2, 127.6),
    Box("Gwangju", 35.0, 35.3, 126.7, 127.1),
    Box("Jeju", 33.2, 33.6, 126.1, 126.9),
    Box("Ulsan", 35.4, 35.7, 129.1, 129.5),
    Box("Gyeonggi", 36.9, 38.0, 126.3, 127.8),
    Box("Gangwon", 37.0, 38.5, 127.5, 129.5)]

  /** `extractCity(lat, lng)`, written as the chain of tests it is. The chain is the
      first-match lookup in `Boxes`: inclusive bounds, fixed order, first match wins, no
      city when the point is in no box. */
  function ExtractCity(lat: real, lng: real): (r: Option<string>)
    ensures r == FirstCityFrom(Boxes, 0, lat, lng)
  {
    if lat >= 37.4 && lat <= 37.7 && lng >= 126.8 && lng <= 127.2 then
      Some("Seoul")
    else if lat >= 35.0 && lat <= 35.3 && lng >= 128.9 && lng <= 129.3 then
      Some("Busan")
    else if lat >= 37.3 && lat <= 37.6 && lng >= 126.4 && lng <= 126.8 then
      Some("Incheon")
    else if lat >= 35.7 && lat <= 36.0 && lng >= 128.4 && lng <= 128.8 then
      Some("Daegu")
    else if lat >= 36.2 && lat <= 36.5 && lng >= 127.2 && lng <= 127.6 then
      Some("Daejeon")
    else if lat >= 35.0 && lat <= 35.3 && lng >= 126.7 && lng <= 127.1 then
      Some("Gwangju")
    else if lat >= 33.2 && lat <= 33.6 && lng >= 126.1 && lng <= 126.9 then
      Some("Jeju")
    else if lat >= 35.4 && lat <= 35.7 && lng >= 129.1 && lng <= 129.5 then
      Some("Ulsan")
    else if lat >= 36.9 && lat <= 38.0 && lng >= 126.3 && lng <= 127.8 then
      Some("Gyeonggi")
    else if lat >= 37.0 && lat <= 38.5 && lng >= 127.5 && lng <= 129.5 then
      Some("Gangwon")
    else
      None
  }

  /** First-match lookup in a table of boxes, starting at position `k`. */
  function FirstCityFrom(boxes: seq<Box>, k: nat, lat: real, lng: real): Option<string>
    decreases |boxes| - k
  {
    if k >= |boxes| then None
    else if InBox(boxes[k], lat, lng) then Some(boxes[k].city)
    else FirstCityFrom(boxes, k + 1, lat, lng)
  }

  /** First match from `k` on: no city exactly when no box at or after `k` holds the
      point; otherwise the city of a box that holds it, with no box between `k` and it
      holding the point. */
  lemma {:induction false} FirstCityIsFirstMatch(boxes: seq<Box>, k: nat, lat: real, lng: real)
    ensures FirstCityFrom(boxes, k, lat, lng).None?
            <==> forall i :: k <= i < |boxes| ==> !InBox(boxes[i], lat, lng)
    ensures FirstCityFrom(boxes, k, lat, lng).Some? ==>
              exists i :: k <= i < |boxes| && InBox(boxes[i], lat, lng)
                          && boxes[i].city == FirstCityFrom(boxes, k, lat, lng).value
                          && forall j :: k <= j < i ==> !InBox(boxes[j], lat, lng)
    decreases |boxes| - k
  {
    if k < |boxes| && !InBox(boxes[k], lat, lng) {
      FirstCityIsFirstMatch(boxes, k + 1, lat, lng);
    }
  }

  /** The point on the shared Seoul/Incheon edge is in both boxes and goes to Seoul. */
  lemma SeoulIncheonEdge()
    ensures InBox(Boxes[0], 37.5, 126.8) && InBox(Boxes[2], 37.5, 126.8)
    ensures ExtractCity(37.5, 126.8) == Some("Seoul")
  {
  }

  /** Points in both the Gyeonggi and the Gangwon box go to Gyeonggi, which is checked first. */
  lemma GyeonggiBeforeGangwon(lat: real, lng: real)
    requires 37.0 <= lat <= 38.0 && 127.5 <= lng <= 127.8
    ensures InBox(Boxes[8], lat, lng) && InBox(Boxes[9], lat, lng)
    ensures ExtractCity(lat, lng) == Some("Gyeonggi")
  {
  }

  /** A point in no box gets no city, e.g. the origin. */
  lemma OutsideAllBoxes()
    ensures ExtractCity(0.0, 0.0).None?
  {
  }

  /** A classified point lies in the box of the city it was given, and in no box
      checked before it. */
  lemma CityBoxContainsPoint(lat: real, lng: real)
    requires ExtractCity(lat, lng).Some?
    ensures exists i :: 0 <= i < |Boxes| && Boxes[i].city == ExtractCity(lat, lng).value
                        && InBox(Boxes[i], lat, lng)
                        && forall j :: 0 <= j < i ==> !InBox(Boxes[j], lat, lng)
  {
    FirstCityIsFirstMatch(Boxes, 0, lat, lng);
  }
}
