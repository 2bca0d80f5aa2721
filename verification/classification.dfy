/**
 * Folder classification: the two static tables that map the name of a
 * placemark's enclosing folder to a category and a halal status, with
 * `other` / `unknown` for any name not in the tables.
 */
module Classification {
  import opened Wrappers
  import opened Place

  /** The nine folder names the tables know, in table order. */
  const KnownFolders: seq<string> := [
    "Halal restaurant", "Partially Halal", "Seafood restaurant",
    "Muslim Friendly Restaurant", "Vegetarian Restaurant", "Masjid & Musalla",
    "Muslim Friendly Accommodation", "Halal Mart", "ICU Company"]

  /** `FOLDER_TO_CATEGORY`, read as a lookup: `None` for a name it does not list. It lists
      exactly the nine known folder names. */
  function FolderToCategory(folderName: string): (r: Option<PlaceCategory>)
    ensures r.Some? <==> folderName in KnownFolders
  {
    match folderName
    case "Halal restaurant" => Some(PlaceCategory.Restaurant)
    case "Partially Halal" => Some(PlaceCategory.Restaurant)
    case "Seafood restaurant" => Some(PlaceCategory.Restaurant)
    case "Muslim Friendly Restaurant" => Some(PlaceCategory.Restaurant)
    case "Vegetarian Restaurant" => Some(PlaceCategory.Restaurant)
    case "Masjid & Musalla" => Some(Mosque)
    case "Muslim Friendly Accommodation" => Some(Accommodation)
    case "Halal Mart" => Some(Grocery)
    case "ICU Company" => Some(Other)
    case _ => None
  }

  /** `FOLDER_TO_HALAL_STATUS`, read the same way; it lists the same nine names. */
  function FolderToStatus(folderName: string): (r: Option<HalalStatus>)
    ensures r.Some? <==> folderName in KnownFolders
  {
    match folderName
    case "Halal restaurant" => Some(HalalCertified)
    case "Partially Halal" => Some(PartiallyHalal)
    case "Seafood restaurant" => Some(SeafoodOnly)
    case "Muslim Friendly Restaurant" => Some(MuslimFriendly)
    case "Vegetarian Restaurant" => Some(Vegetarian)
    case "Masjid & Musalla" => Some(Unknown)
    case "Muslim Friendly Accommodation" => Some(MuslimFriendly)
    case "Halal Mart" => Some(HalalCertified)
    case "ICU Company" => Some(Unknown)
    case _ => None
  }

  /** The folder name a document-level placemark is classified under. */
  const DocumentFolder: string := "Unknown"

  /** `FOLDER_TO_CATEGORY[folderName] || 'other'`. */
  function CategoryOf(folderName: string): (c: PlaceCategory)
    ensures folderName !in KnownFolders ==> c == Other
  {
    FolderToCategory(folderName).GetOr(Other)
  }

  /** `FOLDER_TO_HALAL_STATUS[folderName] || 'unknown'`. */
  function StatusOf(folderName: string): (h: HalalStatus)
    ensures folderName !in KnownFolders ==> h == Unknown
  {
    FolderToStatus(folderName).GetOr(Unknown)
  }

  /** The default branch: a missing folder name (`''`), the document-level label
      `'Unknown'`, and every other unlisted name classify as other / unknown. */
  lemma UnlistedFolders(n: string)
    requires n !in KnownFolders
    ensures CategoryOf(n) == Other && StatusOf(n) == Unknown
  {
  }

  lemma EmptyAndDocumentFolders()
    ensures CategoryOf("") == Other && StatusOf("") == Unknown
    ensures CategoryOf(DocumentFolder) == Other && StatusOf(DocumentFolder) == Unknown
  {
    assert "" !in KnownFolders;
    assert DocumentFolder !in KnownFolders;
  }

  /** The listed folders, row by row: the halal restaurant folders. */
  lemma ListedRestaurantFolders()
    ensures CategoryOf("Halal restaurant") == PlaceCategory.Restaurant && StatusOf("Halal restaurant") == HalalCertified
    ensures CategoryOf("Partially Halal") == PlaceCategory.Restaurant && StatusOf("Partially Halal") == PartiallyHalal
    ensures CategoryOf("Seafood restaurant") == PlaceCategory.Restaurant && StatusOf("Seafood restaurant") == SeafoodOnly
  {
  }

  /** The Muslim-friendly and vegetarian folders. */
  lemma ListedFriendlyFolders()
    ensures CategoryOf("Muslim Friendly Restaurant") == PlaceCategory.Restaurant
            && StatusOf("Muslim Friendly Restaurant") == MuslimFriendly
    ensures CategoryOf("Vegetarian Restaurant") == PlaceCategory.Restaurant && StatusOf("Vegetarian Restaurant") == Vegetarian
    ensures CategoryOf("Muslim Friendly Accommodation") == Accommodation
            && StatusOf("Muslim Friendly Accommodation") == MuslimFriendly
  {
  }

  /** The mosque, grocery and company folders. */
  lemma ListedOtherFolders()
    ensures CategoryOf("Masjid & Musalla") == Mosque && StatusOf("Masjid & Musalla") == Unknown
    ensures CategoryOf("Halal Mart") == Grocery && StatusOf("Halal Mart") == HalalCertified
    ensures CategoryOf("ICU Company") == Other && StatusOf("ICU Company") == Unknown
  {
  }

  /** The inverse table: which listed folder a category and status pair comes from.
      Its contract checks it against the two forward tables. */
  function FolderFor(c: PlaceCategory, h: HalalStatus): (r: Option<string>)
    ensures r.Some? ==> r.value in KnownFolders && CategoryOf(r.value) == c && StatusOf(r.value) == h
  {
    match (c, h)
    case (Restaurant, HalalCertified) => Some("Halal restaurant")
    case (Restaurant, PartiallyHalal) => Some("Partially Halal")
    case (Restaurant, SeafoodOnly) => Some("Seafood restaurant")
    case (Restaurant, MuslimFriendly) => Some("Muslim Friendly Restaurant")
    case (Restaurant, Vegetarian) => Some("Vegetarian Restaurant")
    case (Mosque, Unknown) => Some("Masjid & Musalla")
    case (Accommodation, MuslimFriendly) => Some("Muslim Friendly Accommodation")
    case (Grocery, HalalCertified) => Some("Halal Mart")
    case (Other, Unknown) => Some("ICU Company")
    case _ => None
  }

  /** No two listed folders share a classification, so a listed folder can be recovered from
      its category and status; only `ICU Company` coincides with the default. */
  lemma ClassificationRecoversFolder(n: string)
    requires n in KnownFolders
    ensures FolderFor(CategoryOf(n), StatusOf(n)) == Some(n)
    ensures (CategoryOf(n) == Other && StatusOf(n) == Unknown) <==> n == "ICU Company"
  {
    var i :| 0 <= i < |KnownFolders| && KnownFolders[i] == n;
    if i < 3 {
      ListedRestaurantFolders();
    } else if i == 3 || i == 4 || i == 6 {
      ListedFriendlyFolders();
    } else {
      ListedOtherFolders();
    }
  }
}
