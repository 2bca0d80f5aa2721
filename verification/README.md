# KMZ placemark converter, modelled in Dafny

This project models the conversion pipeline of the Korean halal map's KMZ import
script. The script works on a Google My Maps export. From the parsed KML tree it
builds one `Restaurant` record per usable placemark:

- each placemark is classified by the name of its nearest enclosing folder;
- it gets an id from a 32-bit rolling hash of its name and coordinates;
- it gets a city from ten latitude/longitude boxes;
- opening hours, phone and a clean text are taken from its HTML description.

From the records it then derives:

- three frequency tallies (by category, by halal status and by city);
- the sorted, de-duplicated `cities` and `categories` exports;
- a GeoJSON FeatureCollection of Point features (RFC 7946).

The model starts where the XML library has produced a tree (`Kml.Document`,
`Kml.Folder`, `Kml.Placemark`). A child that is either one node or a list is
`Kml.Many`. Everything from there on is a pure function.

Modules, in dependency order:

| module | file | what it holds |
|---|---|---|
| `Wrappers` | wrappers.dfy | `Option` and `Result` |
| `JsString` | jsstring.dfy | ECMAScript whitespace, `trim`, `split`, whitespace removal, UTF-16 code units |
| `JsNumber` | jsnumber.dfy | `toString(radix)`, `Math.round`, `Math.abs`, `toFixed(6)`, `Number(text)` |
| `Place` | place.dfy | `PlaceCategory`, `HalalStatus`, `Restaurant` and their string literals |
| `Classification` | classification.dfy | the folder-name tables and their defaults |
| `Ids` | ids.dfy | `generateId` |
| `Cities` | cities.dfy | `extractCity` |
| `Kml` | kml.dfy | the parsed tree and the single-node-or-list reading |
| `Markup` | markup.dfy | the global regular-expression replacements of `parseDescription`, written as scans |
| `Description` | description.dfy | `parseDescription` |
| `Placemarks` | placemarks.dfy | `parsePlacemark` |
| `Walker` | walker.dfy | `parseFolders`, and a reference reading of the tree as a flat list |
| `GeoJson` | geojson.dfy | `toGeoJSON` |
| `Ordering` | ordering.dfy | `[...new Set(xs)]` and `Array.prototype.sort()` on strings |
| `Summary` | summary.dfy | the three tallies and the `cities` / `categories` exports |
| `Driver` | driver.dfy | `main` without I/O: find the document, collect, report |

The record id is computed from the placemark's name as given
(scripts/parse-kmz.ts:201); the name is trimmed only for the record's `name` field
(scripts/parse-kmz.ts:208).

## Model

| member | source | states |
|---|---|---|
| Place.CategoryFromName | src/types/restaurant.ts:1-6 | a string is accepted as a category only when it is that category's literal |
| Place.StatusFromName | src/types/restaurant.ts:8-14 | a string is accepted as a halal status only when it is that status's literal |
| Place.CategoryNameRoundTrip | src/types/restaurant.ts:1-6 | every category reads back from its literal, so the five literals are distinct |
| Place.StatusNameRoundTrip | src/types/restaurant.ts:8-14 | every halal status reads back from its literal, so the six literals are distinct |
| Place.CategoryLiterals | src/types/restaurant.ts:1-6 | the category literals are exactly restaurant, mosque, accommodation, grocery and other |
| Place.StatusLiterals | src/types/restaurant.ts:8-14 | the status literals are exactly halal_certified, muslim_friendly, partially_halal, seafood_only, vegetarian and unknown |
| Classification.CategoryOf | scripts/parse-kmz.ts:197 | a folder name missing from the category table classifies as `other` |
| Classification.StatusOf | scripts/parse-kmz.ts:198 | a folder name missing from the status table classifies as `unknown` |
| Classification.FolderToCategory | scripts/parse-kmz.ts:23-33 | the category table lists exactly the nine known folder names |
| Classification.FolderToStatus | scripts/parse-kmz.ts:36-46 | the status table lists exactly the same nine folder names |
| Classification.UnlistedFolders | scripts/parse-kmz.ts:197-198 | every unlisted name falls back to other / unknown |
| Classification.EmptyAndDocumentFolders | scripts/parse-kmz.ts:236 | a missing folder name (`''`) and the document-level label `'Unknown'` both classify as other / unknown |
| Classification.ListedRestaurantFolders | scripts/parse-kmz.ts:23-46 | Halal restaurant, Partially Halal and Seafood restaurant are restaurants, halal certified, partially halal and seafood only |
| Classification.ListedFriendlyFolders | scripts/parse-kmz.ts:23-46 | the Muslim-friendly restaurant and accommodation folders are Muslim friendly; the vegetarian folder is a vegetarian restaurant |
| Classification.ListedOtherFolders | scripts/parse-kmz.ts:23-46 | Masjid & Musalla is a mosque of unknown status; Halal Mart is halal-certified grocery; ICU Company is other / unknown |
| Classification.FolderFor | scripts/parse-kmz.ts:23-46 | the inverse table: any folder it names is listed and classifies back to the given pair |
| Classification.ClassificationRecoversFolder | scripts/parse-kmz.ts:23-46 | no two listed folders share a category and status, and only ICU Company coincides with the default |
| JsString.Trim | scripts/parse-kmz.ts:80 | the result has no whitespace at either end and is the input with only whitespace cut from its two ends |
| JsString.TrimIdempotent | scripts/parse-kmz.ts:84 | trimming twice is trimming once |
| JsString.RemoveSpaces | scripts/parse-kmz.ts:113 | the result holds no whitespace and exactly the non-whitespace characters of the input |
| JsString.RemoveSpacesAppend | scripts/parse-kmz.ts:113 | removing whitespace distributes over concatenation |
| JsString.Split | scripts/parse-kmz.ts:189 | `split(',')` gives at least one field and no field holds a comma |
| JsString.JoinSplit | scripts/parse-kmz.ts:189 | joining the fields with the separator gives the text back |
| JsString.SplitJoin | scripts/parse-kmz.ts:189 | separator-free fields joined and split again give the fields back |
| JsString.Utf16 | scripts/parse-kmz.ts:53-54 | `input.length` counts at least one code unit per character |
| JsString.Utf16RoundTrip | scripts/parse-kmz.ts:53-54 | the code units the hash reads determine the string: decoding gives it back |
| JsNumber.ToRadix | scripts/parse-kmz.ts:59 | `toString(base)` writes at least one digit of the base, with no leading zero unless the number is 0 |
| JsNumber.FromRadixToRadix | scripts/parse-kmz.ts:59 | reading back the digits `toString(base)` writes gives the number |
| JsNumber.ToRadixLength | scripts/parse-kmz.ts:59 | a number below base^k takes at most k digits |
| JsNumber.Round | scripts/parse-kmz.ts:60 | `Math.round` gives the nearest integer, ties upward |
| JsNumber.ToFixed6 | scripts/parse-kmz.ts:50 | `toFixed(6)` writes an optional minus sign, whole digits, a point and six digits; the sign is there exactly for negative numbers, and the whole part has no leading zero unless it is the single digit 0 |
| JsNumber.FixedDecimal | scripts/parse-kmz.ts:50 | the decimal `toFixed(6)` writes is within half a millionth of the number |
| JsNumber.ParseNumber | scripts/parse-kmz.ts:189 | `Number` of blank text is 0 |
| JsNumber.ParseToFixed6 | scripts/parse-kmz.ts:189 | `Number` reads what `toFixed(6)` wrote back as the rounded decimal |
| JsNumber.ParseMillionths | scripts/parse-kmz.ts:189 | a fixed-point literal, with or without a minus sign, reads as its signed digits times 10^-6 |
| Ids.IdInput | scripts/parse-kmz.ts:50 | the hashed text reads back, at its last two colons, as the name and the two `toFixed(6)` texts, so it determines the name and the position to six decimals |
| Ids.JoinReadsBack | scripts/parse-kmz.ts:50 | a name and two colon-free texts joined with colons split back into the three |
| Ids.ToInt32 | scripts/parse-kmz.ts:56 | `hash & hash` lands in [-2^31, 2^31) and agrees with its input modulo 2^32 |
| Ids.HashStepWraps | scripts/parse-kmz.ts:55-56 | each loop step is the 32-bit wrap of 31 times the hash plus the code unit |
| Ids.Hash | scripts/parse-kmz.ts:52-57 | the hash stays a signed 32-bit integer |
| Ids.HashIsReducedPolynomial | scripts/parse-kmz.ts:52-57 | wrapping at every step equals wrapping the unbounded polynomial hash once at the end |
| Ids.ComputeHash | scripts/parse-kmz.ts:52-57 | the loop over the code units computes the 32-bit reduction of the polynomial hash |
| Ids.HashPart | scripts/parse-kmz.ts:59 | the absolute hash takes one to six base-36 digits and holds no underscore |
| Ids.MicroPart | scripts/parse-kmz.ts:60 | each coordinate part is at least one base-36 digit and holds no underscore |
| Ids.GenerateId | scripts/parse-kmz.ts:49-62 | the id has 3 to 20 characters, all from [0-9a-z_] |
| Ids.IdStartsWithHash | scripts/parse-kmz.ts:59-61 | the underscore survives the cut right after the hash digits, and those digits read back as the absolute hash |
| Cities.FirstCityIsFirstMatch | scripts/parse-kmz.ts:128-171 | first-match lookup: no city exactly when no box holds the point, otherwise the city of a box that holds it with no earlier box holding it |
| Cities.ExtractCity | scripts/parse-kmz.ts:128-171 | the chain of ten inclusive tests is first-match lookup in the box table |
| Cities.SeoulIncheonEdge | scripts/parse-kmz.ts:130-140 | (37.5, 126.8) is in both the Seoul and the Incheon box and goes to Seoul |
| Cities.GyeonggiBeforeGangwon | scripts/parse-kmz.ts:161-168 | points in the Gyeonggi/Gangwon overlap go to Gyeonggi |
| Cities.OutsideAllBoxes | scripts/parse-kmz.ts:170 | a point in no box, such as the origin, gets no city |
| Cities.CityBoxContainsPoint | scripts/parse-kmz.ts:128-171 | a classified point lies in its city's box and in no box checked before it |
| Kml.AsSeq | scripts/parse-kmz.ts:240-242 | a single node is the one-element list, a list is itself |
| Markup.FindClose | scripts/parse-kmz.ts:76 | `[^>]*>` ends at the first `>` |
| Markup.PromoMatch | scripts/parse-kmz.ts:83 | an app-download block starts at `◼` and ends, lazily, where a blank line, a line break before a character that is not an ASCII letter, or the end of the text follows |
| Markup.MatchAt | scripts/parse-kmz.ts:76-84 | no pattern matches the empty string, and a match is never shorter than its replacement |
| Markup.Replace | scripts/parse-kmz.ts:76-79 | a global replacement never lengthens the text |
| Markup.ReplaceUnchangedIff | scripts/parse-kmz.ts:76-121 | a shortening replacement leaves the text unchanged exactly when the pattern matches nowhere, and otherwise shortens it |
| Markup.ReplaceChars | scripts/parse-kmz.ts:76-121 | every character of the output comes from the input or the replacement text |
| Markup.TagStripLeavesNoTag | scripts/parse-kmz.ts:78 | after the tag strip no `<` is followed by one or more non-`>` characters and a `>` |
| Markup.TagStripIdempotent | scripts/parse-kmz.ts:78 | stripping tags twice is stripping them once |
| Markup.AroundNewlineBare | scripts/parse-kmz.ts:79 | after the collapse, no line break has whitespace beside it |
| Markup.AroundNewlineKeepsText | scripts/parse-kmz.ts:79 | the collapse changes only whitespace: with whitespace removed, input and output agree |
| Markup.UrlStripKeepsPrefix | scripts/parse-kmz.ts:120 | a removal always ends at whitespace or at the end, so a leading run of non-whitespace output is input |
| Markup.UrlStripLeavesNoUrl | scripts/parse-kmz.ts:120 | after the URL strip no URL is left |
| Markup.BlankLinesCollapse | scripts/parse-kmz.ts:121 | after the collapse no three line breaks are adjacent |
| Markup.BlankLinesKeepNoUrl | scripts/parse-kmz.ts:121 | the blank-line collapse brings no URL back |
| Markup.NoTagIff | scripts/parse-kmz.ts:78 | `<[^>]+>` matches nowhere exactly when every `<` with a `>` after it is directly followed by `>` |
| Markup.ReplaceKeepsNoTag | scripts/parse-kmz.ts:79-121 | the whitespace collapse, the URL strip, the blank-line collapse and the app-download removal bring no tag back |
| Markup.TrimKeepsNoTag | scripts/parse-kmz.ts:80-122 | trimming brings no tag back |
| Description.FirstCapture | scripts/parse-kmz.ts:86-116 | the first pattern in list order that matches supplies the capture; none when no pattern matches |
| Description.StripMarkup | scripts/parse-kmz.ts:75-80 | the cleaned markup is trimmed, every line break in it is bare, and no tag is left in it |
| Description.SearchText | scripts/parse-kmz.ts:82-84 | the text the patterns search, with the app-download blocks removed, is trimmed and holds no tag |
| Description.TidyKeepsNoTag | scripts/parse-kmz.ts:119-122 | removing URLs and blank lines and trimming brings no tag back |
| Description.Tidy | scripts/parse-kmz.ts:119-122 | the final text is trimmed, holds no URL and no three adjacent line breaks |
| Description.TrimKeepsNoUrl | scripts/parse-kmz.ts:122 | the final trim brings no URL back |
| Description.TrimKeepsNoTriple | scripts/parse-kmz.ts:122 | the final trim brings back no three adjacent line breaks |
| Description.ParseDescription | scripts/parse-kmz.ts:65-125 | an empty description gives (null, null, ''); hours are trimmed, the phone holds no whitespace, the text is tidy and holds no tag |
| Description.ParseDescriptionParts | scripts/parse-kmz.ts:86-124 | hours and phone each come from the first matching pattern in list order, trimmed, with whitespace removed from the phone; the text is the tidied search text |
| Description.HoursIconWins | scripts/parse-kmz.ts:87-100 | when the clock-icon pattern matches, its capture is the hours whatever the later patterns find |
| Placemarks.Coordinates | scripts/parse-kmz.ts:189-190 | coordinates are read only when the trimmed text has at least two comma fields |
| Placemarks.CoordinatesRead | scripts/parse-kmz.ts:189-190 | coordinates are read exactly when the first two fields are numbers: longitude from the first, latitude from the second |
| Placemarks.Locate | scripts/parse-kmz.ts:179-190 | a located placemark keeps its name as given |
| Placemarks.LocateIffUsable | scripts/parse-kmz.ts:179-190 | the early returns let through exactly the usable placemarks |
| Placemarks.Build | scripts/parse-kmz.ts:192-219 | the record has the trimmed name, no address, the read position, the folder's classification, `extractCity`'s city, the id of the untrimmed name and never an empty description |
| Placemarks.ParsePlacemark | scripts/parse-kmz.ts:174-226 | a built record has the trimmed name, no address, the folder's category and status, `extractCity`'s city, the untrimmed name's id and no empty description |
| Placemarks.ParsePlacemarkRejects | scripts/parse-kmz.ts:178-190 | null exactly when the name is empty or missing, the point or its coordinates are missing or empty, or either of the first two fields is not a number |
| Placemarks.ParsePlacemarkFields | scripts/parse-kmz.ts:189-219 | longitude from field one, latitude from field two, hours and phone from the description, description null exactly when the cleaned text is empty, source `local_kmz` |
| Placemarks.ExtraFieldsIgnored | scripts/parse-kmz.ts:189 | fields after the second do not change the position |
| Placemarks.FixedTextShape | scripts/parse-kmz.ts:50 | `toFixed(6)` text is non-empty, trimmed and holds no comma |
| Placemarks.SplitPair | scripts/parse-kmz.ts:189 | two comma-free trimmed texts joined by a comma split back into the two |
| Placemarks.CoordinatesOfFixedText | scripts/parse-kmz.ts:189 | `lng,lat` written with `toFixed(6)` reads back as the two numbers rounded to millionths |
| Placemarks.EmptyLatitudeIsZero | scripts/parse-kmz.ts:189-190 | an empty latitude field reads as 0, so `"127,"` is kept at (127, 0) |
| Walker.CountBuilt | scripts/parse-kmz.ts:244-249 | no more records than placemarks |
| Walker.BuiltCount | scripts/parse-kmz.ts:244-249 | one record per placemark that builds, each the build of a placemark with the folder name it carries |
| Walker.AddPlacemarksIsBuilt | scripts/parse-kmz.ts:239-250 | the placemark loop appends, in order, the records built with the folder's name |
| Walker.WalkFolderIsBuilt | scripts/parse-kmz.ts:236-255 | one folder appends its own placemarks' records, then its sub-folders' |
| Walker.WalkFoldersIsBuilt | scripts/parse-kmz.ts:233-256 | the folder loop appends the records of the folders in sibling order |
| Walker.ParseFolders | scripts/parse-kmz.ts:229-257 | `parseFolders` keeps the accumulator as a prefix and appends the records of the tree's placemarks in document order, each classified by its nearest folder, one per placemark that builds |
| Walker.SingleFolderIsList | scripts/parse-kmz.ts:233 | a single folder node is walked as the one-element list holding it |
| GeoJson.FeatureOf | scripts/parse-kmz.ts:263-279 | each feature is a valid Point feature at [longitude, latitude] whose id equals its properties' id and the record's id |
| GeoJson.ToGeoJson | scripts/parse-kmz.ts:260-281 | the collection is a valid FeatureCollection with one feature per record, ids in record order |
| GeoJson.RecordOf | scripts/parse-kmz.ts:263-279 | a record is read back from a feature exactly when the feature is valid and its two ids agree |
| GeoJson.FeatureRoundTrip | scripts/parse-kmz.ts:263-279 | given address and description, the record reads back from its feature |
| GeoJson.FeatureForgets | scripts/parse-kmz.ts:270-278 | two records have the same feature exactly when they differ at most in address and description |
| GeoJson.ToGeoJsonInOrder | scripts/parse-kmz.ts:263 | feature i reads back as record i |
| GeoJson.ToGeoJsonAppend | scripts/parse-kmz.ts:263 | the projection is a map over the list: it commutes with concatenation |
| Ordering.BeforeIrreflexive | scripts/parse-kmz.ts:397 | the default sort order puts no string before itself |
| Ordering.BeforeTransitive | scripts/parse-kmz.ts:397 | the default sort order is transitive |
| Ordering.BeforeTotal | scripts/parse-kmz.ts:397 | of two different strings one sorts before the other |
| Ordering.Dedupe | scripts/parse-kmz.ts:397 | `[...new Set(xs)]` holds each string of `xs` once and nothing else |
| Ordering.DedupeSnoc | scripts/parse-kmz.ts:397 | the set keeps first occurrences in order: a new string goes at the end, a repeat adds nothing |
| Ordering.Insert | scripts/parse-kmz.ts:397 | inserting adds exactly the one string |
| Ordering.Sort | scripts/parse-kmz.ts:397 | sorting permutes the list |
| Ordering.InsertSorted | scripts/parse-kmz.ts:397 | inserting a new string into a strictly sorted list keeps it strictly sorted |
| Ordering.SortSorted | scripts/parse-kmz.ts:397 | sorting a list without repeats gives a strictly sorted list |
| Ordering.SortedUnique | scripts/parse-kmz.ts:397 | two strictly sorted lists with the same strings are equal |
| Ordering.SortedSet | scripts/parse-kmz.ts:397 | `[...new Set(xs)].sort()` is strictly sorted and holds exactly the strings of `xs` |
| Ordering.SortedSetOfSameStrings | scripts/parse-kmz.ts:397 | order and repeats in the input do not change the export |
| Summary.TallyFromCounts | scripts/parse-kmz.ts:341-347 | folding keys onto a tally adds each key's number of occurrences |
| Summary.Tally | scripts/parse-kmz.ts:341-347 | a tally holds exactly the keys that occur, each with its number of occurrences |
| Summary.KeysHold | scripts/parse-kmz.ts:341-368 | a key occurs among the records' keys as often as there are records with that key |
| Summary.CountIsCount | scripts/parse-kmz.ts:341-368 | each tally has an entry exactly for the keys of the records, counting the records with that key |
| Summary.CategoryCountKeys | scripts/parse-kmz.ts:341-347 | every key of the category tally is a category literal in use |
| Summary.StatusCountKeys | scripts/parse-kmz.ts:351-357 | every key of the status tally is a status literal in use |
| Summary.CityKeyUnknown | scripts/parse-kmz.ts:363 | records with no or an empty city are counted under `'Unknown'`, together with records whose city is that literal |
| Summary.CityValues | scripts/parse-kmz.ts:397 | `filter(Boolean)` keeps exactly the non-empty cities of the records |
| Summary.CityList | scripts/parse-kmz.ts:397 | `cities` is strictly sorted and holds exactly the non-empty cities in use |
| Summary.CategoryList | scripts/parse-kmz.ts:400 | `categories` is strictly sorted and holds exactly the category literals in use |
| Summary.CitiesUnique | scripts/parse-kmz.ts:397 | any strictly sorted list of exactly the cities in use is `cities` |
| Summary.ListsIgnoreOrder | scripts/parse-kmz.ts:397-400 | the exports depend only on which records occur |
| Driver.Run | scripts/parse-kmz.ts:294-315 | `main` fails exactly when `doc.kml`, the `kml` element or the `Document` is missing, and otherwise reports the collected records |
| Driver.RunErrors | scripts/parse-kmz.ts:294-315 | the failures are checked in order: a missing entry first, then the `kml` element, then the `Document` |
| Driver.Report | scripts/parse-kmz.ts:338-400 | the count and the GeoJSON feature count equal the number of records; the collection is valid; the exports are sorted |
| Driver.OwnItems | scripts/parse-kmz.ts:325-331 | the document's own placemarks are labelled `'Unknown'` |
| Driver.Collect | scripts/parse-kmz.ts:317-336 | the records are those built from the folder tree's placemarks, then the document's own, one per placemark that builds; the folder tree's records come first, unchanged |
| Driver.FolderRecords | scripts/parse-kmz.ts:320-322 | the folder tree's records are those built from its placemarks, none when the document has no folders |
| Driver.UnknownLabelUnclassified | scripts/parse-kmz.ts:331 | every record built under the label `'Unknown'` is other / unknown |
| Driver.DocumentPlacemarksUnclassified | scripts/parse-kmz.ts:324-336 | every record after those of the folder tree is other / unknown |
| Driver.ReportFeatures | scripts/parse-kmz.ts:412 | the exported GeoJSON has feature i reading back as record i |

## Left out

- Reading the KMZ file, unzipping it and parsing the XML are not modelled. The model takes the archive as a map from entry names to already-parsed trees.
- The file writes, the console logging and the generated TypeScript text are not modelled. The values that text would carry are modelled: the record count and the two lists.
- Values the XML library coerces are not modelled. A numeric-looking name that arrives as a number would make `trim()` throw into the `catch` at scripts/parse-kmz.ts:222-225. In the model every name is text, so `parsePlacemark` never fails.
- Floating point is not modelled: coordinates are exact reals. City boxes, `Math.round` and `toFixed(6)` can differ from the double-precision results at exact decimal edges.
- JsNumber.ToFixed6: the exponential notation `toFixed` falls back to for magnitudes of 10^21 and above is not modelled; no coordinate reaches it.
- JsNumber.ParseNumber: `Infinity` and hexadecimal, octal and binary literals read as not-a-number (`None`), not as their values; coordinate fields do not use them.
- The six hours and phone patterns are not written out character by character. `Description.Matchers` supplies their captures. The order in which they are tried, and the trimming and whitespace removal of their captures, are modelled exactly.
- Lookups of names such as `constructor` in the folder tables are not modelled. In the source they reach the object prototype; in the model they fall back to other / unknown like any other unlisted name.
- Driver.Message: the text of the TypeError the engine raises when the `kml` element is missing is the engine's own, so it is `None`.
- `src/lib/supabase.ts`, `src/types/database.ts` and `src/lib/device.ts` are not part of this model. They hold network configuration, placeholder types and browser storage.
