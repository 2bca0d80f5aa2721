/**
 * `parseDescription`: clean the HTML of a placemark description, pick the
 * opening hours and the phone number out of it with two ordered lists of
 * patterns, and strip URLs and extra blank lines from what is left.
 *
 * The six extraction patterns are not modelled character by character:
 * `Matchers` supplies them, and the model fixes in which order they are tried
 * and what is done with their captures. The replacements, the app-download
 * block removal among them, are the scans of `Markup`.
 */
module Description {
  import opened Wrappers
  import opened JsString
  import opened Markup

  /** The extraction patterns, by role. */
  datatype Pattern =
    | HoursIcon   // /⏰\s*([^\n]+)/i
    | HoursLabel  // /(?:Open|Hours?):\s*([^\n]+)/i
    | TimeRange   // /(\d{1,2}:\d{2}\s*(?:am|pm)?\s*-\s*\d{1,2}:\d{2}\s*(?:am|pm)?)/i
    | PhoneLabel  // /(?:Tel|Phone|📞|☎️?):\s*([+\d\s-()]+)/i
    | PhoneIntl   // /(\+82[\d\s-]+)/
    | PhoneLocal  // /(0\d{1,2}[-\s]?\d{3,4}[-\s]?\d{4})/

  /** The order in which the hours patterns are tried. */
  const HoursPatterns: seq<Pattern> := [HoursIcon, HoursLabel, TimeRange]

  /** The order in which the phone patterns are tried. */
  const PhonePatterns: seq<Pattern> := [PhoneLabel, PhoneIntl, PhoneLocal]

  /** The regular-expression engine for the patterns not written out here:
      `capture(p, s)` is capture group 1 of the first match of `p` in `s`, if any. */
  datatype Matchers = Matchers(capture: (Pattern, string) -> Option<string>)

  /** What `parseDescription` returns. */
  datatype Parts = Parts(openingHours: Option<string>, phone: Option<string>, cleanDescription: string)

  /** The capture of the first pattern, from position `k` of `ps` on, that matches `s`.
      First match wins: there is a capture exactly when some pattern matches, and it is
      the capture of a matching pattern with no matching pattern before it. */
  function FirstCapture(m: Matchers, ps: seq<Pattern>, k: nat, s: string): (r: Option<string>)
    ensures r.None? <==> forall i :: k <= i < |ps| ==> m.capture(ps[i], s).None?
    ensures r.Some? ==>
              exists i :: k <= i < |ps| && m.capture(ps[i], s) == r
                          && forall j :: k <= j < i ==> m.capture(ps[j], s).None?
    decreases |ps| - k
  {
    if k >= |ps| then None
    else match m.capture(ps[k], s)
      case Some(c) => Some(c)
      case None => FirstCapture(m, ps, k + 1, s)
  }

  /** Lines 75-80: drop images, turn line-break tags into line breaks, drop the remaining
      tags, collapse the whitespace around line breaks, trim. */
  function StripMarkup(d: string): (r: string)
    ensures Trimmed(r)
    ensures BareNewlines(r)
    ensures NoMatch(Tag, r)
  {
    var stripped := Replace(Tag, Replace(Break, Replace(Image, d)));
    var collapsed := Replace(AroundNewline, stripped);
    AroundNewlineBare(stripped);
    TrimKeepsBare(collapsed);
    TagStripLeavesNoTag(Replace(Break, Replace(Image, d)));
    NoTagIff(stripped);
    ReplaceKeepsNoTag(AroundNewline, stripped);
    TrimKeepsNoTag(collapsed);
    NoTagIff(Trim(collapsed));
    Trim(collapsed)
  }

  lemma TrimKeepsBare(s: string)
    requires BareNewlines(s)
    ensures BareNewlines(Trim(s))
  {
    var t := Trim(s);
    var k := LeadingSpaces(s);
    TrimSlice(s);
    BareSlice(s, k, k + |t|);
  }

  /** A slice of a text whose line breaks are bare, cut at non-whitespace boundaries or
      at its ends, keeps them bare. */
  lemma BareSlice(s: string, a: nat, b: nat)
    requires a <= b <= |s| && BareNewlines(s)
    ensures BareNewlines(s[a..b])
  {
    var t := s[a..b];
    forall i | 0 <= i < |t| && t[i] == '\n'
      ensures (i == 0 || !IsSpace(t[i - 1])) && (i + 1 == |t| || !IsSpace(t[i + 1]))
    {
      assert t[i] == s[a + i];
      if i > 0 {
        assert t[i - 1] == s[a + i - 1];
      }
      if i + 1 < |t| {
        assert t[i + 1] == s[a + i + 1];
      }
    }
  }

  /** Lines 119-122: remove URLs, cut runs of blank lines to one, trim. The result is
      trimmed, holds no URL and no three adjacent line breaks. */
  function Tidy(s: string): (r: string)
    ensures Trimmed(r)
    ensures NoMatch(Url, r)
    ensures NoTripleNewline(r)
  {
    var noUrl := Replace(Url, s);
    var collapsed := Replace(BlankLines, noUrl);
    UrlStripLeavesNoUrl(s);
    BlankLinesKeepNoUrl(noUrl);
    BlankLinesCollapse(noUrl);
    TrimKeepsNoUrl(collapsed);
    TrimKeepsNoTriple(collapsed);
    Trim(collapsed)
  }

  /** Trimming cuts a slice, so it adds no URL ... */
  lemma TrimKeepsNoUrl(s: string)
    requires NoMatch(Url, s)
    ensures NoMatch(Url, Trim(s))
  {
    var t := Trim(s);
    var k := LeadingSpaces(s);
    TrimSlice(s);
    NoUrlSlice(s, t, k);
  }

  /** ... and no run of three line breaks. */
  lemma TrimKeepsNoTriple(s: string)
    requires NoTripleNewline(s)
    ensures NoTripleNewline(Trim(s))
  {
    var t := Trim(s);
    var k := LeadingSpaces(s);
    TrimSlice(s);
    NoTripleSlice(s, k, k + |t|);
  }

  /** `parseDescription(description)`. */
  function ParseDescription(m: Matchers, description: string): (r: Parts)
    ensures description == "" ==> r == Parts(None, None, "")
    ensures r.openingHours.Some? ==> Trimmed(r.openingHours.value)
    ensures r.phone.Some? ==> NoSpace(r.phone.value)
    ensures Trimmed(r.cleanDescription) && NoMatch(Url, r.cleanDescription)
            && NoTripleNewline(r.cleanDescription)
    ensures NoMatch(Tag, r.cleanDescription)
  {
    if description == "" then Parts(None, None, "")
    else
      var text := SearchText(description);
      TidyKeepsNoTag(text);
      var hours := match FirstCapture(m, HoursPatterns, 0, text)
        case Some(c) => Some(Trim(c))
        case None => None;
      var phone := match FirstCapture(m, PhonePatterns, 0, text)
        case Some(c) => Some(RemoveSpaces(Trim(c)))
        case None => None;
      Parts(hours, phone, Tidy(text))
  }

  /** Lines 82-84: the text the patterns are matched against, the cleaned markup with
      every app-download block removed, trimmed. Removing blocks brings no tag back. */
  function SearchText(description: string): (r: string)
    ensures Trimmed(r)
    ensures NoMatch(Tag, r)
  {
    var stripped := StripMarkup(description);
    var cut := Replace(AppDownload, stripped);
    NoTagIff(stripped);
    ReplaceKeepsNoTag(AppDownload, stripped);
    TrimKeepsNoTag(cut);
    NoTagIff(Trim(cut));
    Trim(cut)
  }

  /** Tidying brings no tag back: it removes URLs, shortens runs of line breaks and
      trims, and none of these starts at a `<` or a `>`. */
  lemma TidyKeepsNoTag(s: string)
    requires NoMatch(Tag, s)
    ensures NoMatch(Tag, Tidy(s))
  {
    var noUrl := Replace(Url, s);
    var collapsed := Replace(BlankLines, noUrl);
    NoTagIff(s);
    ReplaceKeepsNoTag(Url, s);
    ReplaceKeepsNoTag(BlankLines, noUrl);
    TrimKeepsNoTag(collapsed);
    NoTagIff(Tidy(s));
  }

  /** For a non-empty description: hours come from the first hours pattern that matches
      the cleaned text, trimmed, and are absent when none matches; the phone comes from
      the first phone pattern that matches, with its whitespace removed; the description
      is the tidied text. */
  lemma ParseDescriptionParts(m: Matchers, description: string)
    requires description != ""
    ensures var r := ParseDescription(m, description);
            var text := SearchText(description);
            && (r.openingHours.None? <==> forall i :: 0 <= i < 3 ==> m.capture(HoursPatterns[i], text).None?)
            && (r.openingHours.Some? ==>
                  exists i :: 0 <= i < 3 && m.capture(HoursPatterns[i], text).Some?
                              && r.openingHours.value == Trim(m.capture(HoursPatterns[i], text).value)
                              && forall j :: 0 <= j < i ==> m.capture(HoursPatterns[j], text).None?)
            && (r.phone.None? <==> forall i :: 0 <= i < 3 ==> m.capture(PhonePatterns[i], text).None?)
            && (r.phone.Some? ==>
                  exists i :: 0 <= i < 3 && m.capture(PhonePatterns[i], text).Some?
                              && r.phone.value == RemoveSpaces(Trim(m.capture(PhonePatterns[i], text).value))
                              && forall j :: 0 <= j < i ==> m.capture(PhonePatterns[j], text).None?)
            && r.cleanDescription == Tidy(text)
  {
  }

  /** The hours icon is tried first: when it matches, its capture is used whatever the
      other patterns find. */
  lemma HoursIconWins(m: Matchers, description: string)
    requires description != ""
    requires m.capture(HoursIcon, SearchText(description)).Some?
    ensures ParseDescription(m, description).openingHours
            == Some(Trim(m.capture(HoursIcon, SearchText(description)).value))
  {
  }
}
