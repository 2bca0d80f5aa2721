/**
 * The output record of the converter and its two closed enumerations,
 * from src/types/restaurant.ts.
 */
module Place {
  import opened Wrappers

  /** `PlaceCategory`: the five kinds of place. */
  datatype PlaceCategory = Restaurant | Mosque | Accommodation | Grocery | Other

  /** `HalalStatus`: the six halal classifications. */
  datatype HalalStatus = HalalCertified | MuslimFriendly | PartiallyHalal | SeafoodOnly | Vegetarian | Unknown

  /** The only provenance tag a record can carry. */
  const LocalKmz: string := "local_kmz"

  /**
   * `Restaurant`: latitude and longitude are always present; city, address,
   * opening hours, phone and description may be null (`None`). The `source`
   * field has the single literal type `'local_kmz'` and is therefore not stored.
   */
  datatype Restaurant = Restaurant(
    id: string,
    name: string,
    city: Option<string>,
    address: Option<string>,
    latitude: real,
    longitude: real,
    halalStatus: HalalStatus,
    category: PlaceCategory,
    openingHours: Option<string>,
    phone: Option<string>,
    description: Option<string>)
  {
    /** The `source` field. */
    function Source(): string { LocalKmz }
  }

  /** The string literal of a category, as serialised. */
  function CategoryName(c: PlaceCategory): string {
    match c
    case Restaurant => "restaurant"
    case Mosque => "mosque"
    case Accommodation => "accommodation"
    case Grocery => "grocery"
    case Other => "other"
  }

  /** The string literal of a halal status, as serialised. */
  function StatusName(h: HalalStatus): string {
    match h
    case HalalCertified => "halal_certified"
    case MuslimFriendly => "muslim_friendly"
    case PartiallyHalal => "partially_halal"
    case SeafoodOnly => "seafood_only"
    case Vegetarian => "vegetarian"
    case Unknown => "unknown"
  }

  /** The category a literal names, if any: the type `PlaceCategory` read as a check. */
  function CategoryFromName(s: string): (r: Option<PlaceCategory>)
    ensures r.Some? ==> CategoryName(r.value) == s
  {
    if s == "restaurant" then Some(PlaceCategory.Restaurant)
    else if s == "mosque" then Some(Mosque)
    else if s == "accommodation" then Some(Accommodation)
    else if s == "grocery" then Some(Grocery)
    else if s == "other" then Some(Other)
    else None
  }

  /** The halal status a literal names, if any. */
  function StatusFromName(s: string): (r: Option<HalalStatus>)
    ensures r.Some? ==> StatusName(r.value) == s
  {
    if s == "halal_certified" then Some(HalalCertified)
    else if s == "muslim_friendly" then Some(MuslimFriendly)
    else if s == "partially_halal" then Some(PartiallyHalal)
    else if s == "seafood_only" then Some(SeafoodOnly)
    else if s == "vegetarian" then Some(Vegetarian)
    else if s == "unknown" then Some(Unknown)
    else None
  }

  /** Every category reads back from its literal, so distinct categories have distinct literals. */
  lemma CategoryNameRoundTrip(c: PlaceCategory)
    ensures CategoryFromName(CategoryName(c)) == Some(c)
  {
  }

  lemma StatusNameRoundTrip(h: HalalStatus)
    ensures StatusFromName(StatusName(h)) == Some(h)
  {
  }

  /** The category literals are exactly these five strings. */
  lemma CategoryLiterals()
    ensures (set c: PlaceCategory | true :: CategoryName(c))
            == {"restaurant", "mosque", "accommodation", "grocery", "other"}
    ensures forall s :: CategoryFromName(s).Some? <==> s in {"restaurant", "mosque", "accommodation", "grocery", "other"}
  {
    var names := set c: PlaceCategory | true :: CategoryName(c);
    assert CategoryName(PlaceCategory.Restaurant) in names;
    assert CategoryName(Mosque) in names;
    assert CategoryName(Accommodation) in names;
    assert CategoryName(Grocery) in names;
    assert CategoryName(Other) in names;
  }

  /** The halal status literals are exactly these six strings. */
  lemma StatusLiterals()
    ensures (set h: HalalStatus | true :: StatusName(h))
            == {"halal_certified", "muslim_friendly", "partially_halal", "seafood_only", "vegetarian", "unknown"}
    ensures forall s :: (StatusFromName(s).Some?
            <==> s in {"halal_certified", "muslim_friendly", "partially_halal", "seafood_only", "vegetarian", "unknown"})
  {
    var names := set h: HalalStatus | true :: StatusName(h);
    assert StatusName(HalalCertified) in names;
    assert StatusName(MuslimFriendly) in names;
    assert StatusName(PartiallyHalal) in names;
    assert StatusName(SeafoodOnly) in names;
    assert StatusName(Vegetarian) in names;
    assert StatusName(Unknown) in names;
  }
}
