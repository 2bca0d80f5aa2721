/**
 * `parsePlacemark`: one KML placemark to one record, or nothing when the
 * placemark has no name, no point, no coordinates, or coordinates that do not
 * read as two numbers.
 */
module Placemarks {
  import opened Wrappers
  import opened JsString
  import opened JsNumber
  import opened Place
  import opened Classification
  import opened Ids
  import opened Cities
  import opened Description
  import opened Kml

  /** A position as KML writes it: longitude first. */
  datatype LngLat = LngLat(lng: real, lat: real)

  /** `const [lng, lat] = coordsStr.trim().split(',').map(Number)` followed by the NaN
      test: a missing second field is `undefined`, which is NaN too. */
  function Coordinates(coords: string): (r: Option<LngLat>)
    ensures r.Some? ==> |Split(Trim(coords), ',')| >= 2
  {
    var fields := Split(Trim(coords), ',');
    if |fields| < 2 then None
    else match (ParseNumber(fields[0]), ParseNumber(fields[1]))
      case (Some(x), Some(y)) => Some(LngLat(x.Value(), y.Value()))
      case _ => None
  }

  /** The conditions under which a placemark yields a record: a non-empty name, a
      point with non-empty coordinates, and two leading comma fields that are numbers. */
  predicate Usable(p: Placemark) {
    && p.name.Some? && p.name.value != ""
    && p.point.Some? && p.point.value.coordinates.Some?
    && p.point.value.coordinates.value != ""
    && TwoNumbers(p.point.value.coordinates.value)
  }

  /** The trimmed text has at least two comma fields and the first two are numbers. */
  predicate TwoNumbers(coords: string) {
    var fields := Split(Trim(coords), ',');
    |fields| >= 2 && ParseNumber(fields[0]).Some? && ParseNumber(fields[1]).Some?
  }

  /** Coordinates are read exactly when the first two fields are numbers: longitude
      from the first, latitude from the second. */
  lemma CoordinatesRead(coords: string)
    ensures Coordinates(coords).Some? <==> TwoNumbers(coords)
    ensures TwoNumbers(coords) ==>
              var fields := Split(Trim(coords), ',');
              Coordinates(coords)
              == Some(LngLat(ParseNumber(fields[0]).value.Value(), ParseNumber(fields[1]).value.Value()))
  {
  }

  /** A placemark's name and position, once it has passed the checks of `parsePlacemark`. */
  datatype Located = Located(name: string, pos: LngLat)

  /** The early returns of `parsePlacemark`, in order: no name, no point, no coordinates,
      coordinates that are not two numbers. */
  function Locate(p: Placemark): (r: Option<Located>)
    ensures r.Some? ==> p.name == Some(r.value.name)
  {
    match p.name
    case None => None
    case Some(name) =>
      if name == "" then None
      else match p.point
        case None => None
        case Some(point) =>
          match point.coordinates
          case None => None
          case Some(coords) =>
            if coords == "" then None
            else match Coordinates(coords)
              case None => None
              case Some(pos) => Some(Located(name, pos))
  }

  /** The record `parsePlacemark` builds for a located placemark. */
  function Build(m: Matchers, p: Placemark, loc: Located, folderName: string): (r: Restaurant)
    ensures r.name == Trim(loc.name) && r.address.None?
    ensures r.latitude == loc.pos.lat && r.longitude == loc.pos.lng
    ensures r.category == CategoryOf(folderName) && r.halalStatus == StatusOf(folderName)
    ensures r.city == ExtractCity(r.latitude, r.longitude)
    ensures r.id == GenerateId(loc.name, r.latitude, r.longitude)
    ensures r.description != Some("")
  {
    var lat := loc.pos.lat;
    var lng := loc.pos.lng;
    var parts := ParseDescription(m, p.description.GetOr(""));
    Place.Restaurant.Restaurant(
      id := GenerateId(loc.name, lat, lng),
      name := Trim(loc.name),
      city := ExtractCity(lat, lng),
      address := None,
      latitude := lat,
      longitude := lng,
      halalStatus := StatusOf(folderName),
      category := CategoryOf(folderName),
      openingHours := parts.openingHours,
      phone := parts.phone,
      description := if parts.cleanDescription == "" then None else Some(parts.cleanDescription))
  }

  /** `parsePlacemark(placemark, folderName)`. */
  function ParsePlacemark(m: Matchers, p: Placemark, folderName: string): (r: Option<Restaurant>)
    ensures r.Some? ==> p.name.Some? && r.value.name == Trim(p.name.value)
    ensures r.Some? ==> r.value.address.None?
    ensures r.Some? ==> r.value.category == CategoryOf(folderName) && r.value.halalStatus == StatusOf(folderName)
    ensures r.Some? ==> r.value.city == ExtractCity(r.value.latitude, r.value.longitude)
    ensures r.Some? ==> r.value.id == GenerateId(p.name.value, r.value.latitude, r.value.longitude)
    ensures r.Some? ==> r.value.description != Some("")
  {
    match Locate(p)
    case None => None
    case Some(loc) => Some(Build(m, p, loc, folderName))
  }

  /** A placemark is dropped exactly when it is not usable. */
  lemma ParsePlacemarkRejects(m: Matchers, p: Placemark, folderName: string)
    ensures ParsePlacemark(m, p, folderName).None? <==> !Usable(p)
  {
    LocateIffUsable(p);
  }

  lemma LocateIffUsable(p: Placemark)
    ensures Locate(p).Some? <==> Usable(p)
  {
    if p.name.Some? && p.point.Some? && p.point.value.coordinates.Some? {
      CoordinatesRead(p.point.value.coordinates.value);
    }
  }

  /** The fields of a built record: latitude from the second comma field and longitude
      from the first, hours, phone and description from the description text, and no
      description when the cleaned text is empty. */
  lemma ParsePlacemarkFields(m: Matchers, p: Placemark, folderName: string)
    requires Usable(p)
    ensures var r := ParsePlacemark(m, p, folderName);
            var fields := Split(Trim(p.point.value.coordinates.value), ',');
            var parts := ParseDescription(m, p.description.GetOr(""));
            && r.Some?
            && r.value.longitude == ParseNumber(fields[0]).value.Value()
            && r.value.latitude == ParseNumber(fields[1]).value.Value()
            && r.value.openingHours == parts.openingHours
            && r.value.phone == parts.phone
            && (r.value.description.None? <==> parts.cleanDescription == "")
            && (r.value.description.Some? ==> r.value.description.value == parts.cleanDescription)
            && r.value.Source() == LocalKmz
  {
    LocateIffUsable(p);
    CoordinatesRead(p.point.value.coordinates.value);
  }

  /** Fields after the second do not matter: coordinate texts whose first two fields agree
      give the same position (KML's optional altitude is ignored). */
  lemma ExtraFieldsIgnored(a: string, b: string)
    requires |Split(Trim(a), ',')| >= 2 && |Split(Trim(b), ',')| >= 2
    requires Split(Trim(a), ',')[..2] == Split(Trim(b), ',')[..2]
    ensures Coordinates(a) == Coordinates(b)
  {
    assert Split(Trim(a), ',')[0] == Split(Trim(a), ',')[..2][0];
    assert Split(Trim(a), ',')[1] == Split(Trim(a), ',')[..2][1];
    assert Split(Trim(b), ',')[0] == Split(Trim(b), ',')[..2][0];
    assert Split(Trim(b), ',')[1] == Split(Trim(b), ',')[..2][1];
  }

  /** `toFixed(6)` text is trimmed and holds no comma. */
  lemma FixedTextShape(x: real)
    ensures |ToFixed6(x)| > 0 && Trimmed(ToFixed6(x)) && ',' !in ToFixed6(x)
  {
    var r := ToFixed6(x);
    var body := if r[0] == '-' then r[1..] else r;
    assert IsDecimalDigit(body[|body| - 1]) by {
      assert body[|body| - 6..][5] == body[|body| - 1];
    }
    assert r[|r| - 1] == body[|body| - 1];
    assert forall i :: 0 <= i < |body| ==> body[i] == '.' || IsDecimalDigit(body[i]) by {
      forall i | 0 <= i < |body|
        ensures body[i] == '.' || IsDecimalDigit(body[i])
      {
        if i < |body| - 7 {
          assert body[..|body| - 7][i] == body[i];
        } else if i > |body| - 7 {
          assert body[|body| - 6..][i - (|body| - 6)] == body[i];
        }
      }
    }
    if r[0] == '-' {
      assert forall i :: 1 <= i < |r| ==> r[i] == body[i - 1];
    } else {
      assert body[0] == r[0];
      assert IsDecimalDigit(body[0]) by {
        assert body[..|body| - 7][0] == body[0];
      }
    }
  }

  /** Two comma-free trimmed texts joined by a comma split back into the two. */
  lemma SplitPair(a: string, b: string)
    requires |a| > 0 && |b| > 0 && Trimmed(a) && Trimmed(b) && ',' !in a && ',' !in b
    ensures Split(Trim(a + "," + b), ',') == [a, b]
  {
    var s := a + "," + b;
    assert s[0] == a[0] && s[|s| - 1] == b[|b| - 1];
    TrimOfTrimmed(s);
    assert s == a + ("," + b);
    SplitPrefix(a, "," + b, ',');
    assert ("," + b)[1..] == b;
    SplitNoSep(b, ',');
  }

  /** Coordinates whose first two fields are the literals of `x` and `y`. */
  lemma CoordinatesOfFields(s: string, x: Decimal, y: Decimal)
    requires |Split(Trim(s), ',')| >= 2
    requires ParseNumber(Split(Trim(s), ',')[0]) == Some(x)
    requires ParseNumber(Split(Trim(s), ',')[1]) == Some(y)
    ensures Coordinates(s) == Some(LngLat(x.Value(), y.Value()))
  {
  }

  /** Coordinates written as `lng,lat` with `toFixed(6)` read back as those numbers
      rounded to millionths: the reading inverts the writing. */
  lemma CoordinatesOfFixedText(lng: real, lat: real)
    ensures Coordinates(ToFixed6(lng) + "," + ToFixed6(lat))
            == Some(LngLat(FixedDecimal(lng).Value(), FixedDecimal(lat).Value()))
  {
    var a := ToFixed6(lng);
    var b := ToFixed6(lat);
    FixedTextShape(lng);
    FixedTextShape(lat);
    SplitPair(a, b);
    ParseToFixed6(lng);
    ParseToFixed6(lat);
    CoordinatesOfFields(a + "," + b, FixedDecimal(lng), FixedDecimal(lat));
  }

  /** An empty latitude field reads as 0, as `Number('')` does, and the placemark is kept. */
  lemma EmptyLatitudeIsZero()
    ensures Coordinates("127,") == Some(LngLat(127.0, 0.0))
  {
    assert "127," == "127" + ",";
    SplitPrefix("127", ",", ',');
    assert ","[1..] == "";
    TrimOfTrimmed("127,");
    assert Split(Trim("127,"), ',') == ["127", ""];
    ParseNumber127();
    assert ParseNumber("") == Some(Decimal(false, 0, 0));
    CoordinatesOfFields("127,", Decimal(false, 127, 0), Decimal(false, 0, 0));
  }

  lemma ParseNumber127()
    ensures ParseNumber("127") == Some(Decimal(false, 127, 0))
  {
    ParsePlain("127");
    NoExponentMark("127");
    assert "127"[..3] == "127";
    assert IndexOf("127", '.') == 3;
    Mantissa127();
    assert ParseUnsigned("127") == Some(Decimal(false, 127, 0));
  }

  lemma Mantissa127()
    ensures ParseMantissa("127") == Some(Decimal(false, 127, 0))
  {
    assert IndexOf("127", '.') == 3;
    Digits127();
    assert AllDecimal("127") && "127" + "" == "127";
  }

  lemma Digits127()
    ensures FromRadix("127", 10) == 127
  {
    assert "127"[..2] == "12" && "12"[..1] == "1" && "1"[..0] == "";
    assert FromRadix("1", 10) == 1;
    assert FromRadix("12", 10) == 12;
  }
}
