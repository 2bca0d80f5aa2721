/**
 * The global regular-expression replacements `parseDescription` applies to a
 * description, written as scans. Each `Rule` is one pattern; `MatchAt(rule, t)`
 * is the length of the match the pattern makes at the start of `t` (the rest of
 * the input), and `Replace` is `String.prototype.replace` with the `g` flag:
 * the leftmost match is replaced, the search resumes after it, and none of the
 * patterns can match the empty string.
 */
module Markup {
  import opened Wrappers
  import opened JsString

  datatype Rule =
    | Image          // /<img[^>]*>/gi             -> ''
    | Break          // /<br\s*\/?>/gi             -> '\n'
    | Tag            // /<[^>]+>/g                 -> ''
    | AroundNewline  // /\s*\n\s*/g                -> '\n'
    | Url            // /https?:\/\/[^\s]+/g       -> ''
    | BlankLines     // /\n{3,}/g                  -> '\n\n'
    | AppDownload    // /◼\s*Korehalal Trip App Download[\s\S]*?(?=\n\n|\n[^A-Za-z]|$)/gi -> ''

  function Replacement(rule: Rule): string {
    match rule
    case Break => "\n"
    case AroundNewline => "\n"
    case BlankLines => "\n\n"
    case _ => ""
  }

  /** ASCII lower-casing: the only case folding the `i` flag does without the `u` flag
      for the ASCII letters these patterns contain. */
  function LowerAscii(c: char): char {
    if 'A' <= c <= 'Z' then (c as int - 'A' as int + 'a' as int) as char else c
  }

  /** `t` starts with the lower-case literal `lit`, ignoring ASCII case. */
  predicate StartsCi(t: string, lit: string) {
    |lit| <= |t| && forall k :: 0 <= k < |lit| ==> LowerAscii(t[k]) == lit[k]
  }

  /** Position of the first `>` in `t`. */
  function FindClose(t: string): (r: Option<nat>)
    ensures r.Some? ==> r.value < |t| && t[r.value] == '>'
                        && forall k :: 0 <= k < r.value ==> t[k] != '>'
    ensures r.None? ==> forall k :: 0 <= k < |t| ==> t[k] != '>'
  {
    if |t| == 0 then None
    else if t[0] == '>' then Some(0)
    else match FindClose(t[1..])
      case Some(j) => Some(j + 1)
      case None => None
  }

  /** Length of the run of non-whitespace characters at the start of `t`. */
  function NonSpaceRun(t: string): (n: nat)
    ensures n <= |t|
    ensures forall k :: 0 <= k < n ==> !IsSpace(t[k])
    ensures n < |t| ==> IsSpace(t[n])
  {
    if |t| == 0 || IsSpace(t[0]) then 0 else 1 + NonSpaceRun(t[1..])
  }

  /** Length of the run of `\n` at the start of `t`. */
  function NewlineRun(t: string): (n: nat)
    ensures n <= |t|
    ensures forall k :: 0 <= k < n ==> t[k] == '\n'
    ensures n < |t| ==> t[n] != '\n'
  {
    if |t| == 0 || t[0] != '\n' then 0 else 1 + NewlineRun(t[1..])
  }

  /** `https?:\/\/` followed by at least one non-whitespace character. When the `s`
      is present but what follows `://` is whitespace, backtracking to `http` fails
      too, since the next character is then `s` and not `:`. */
  predicate UrlStart(t: string) {
    |t| > 7 && t[0] == 'h' && t[1] == 't' && t[2] == 't' && t[3] == 'p'
    && ((t[4] == ':' && t[5] == '/' && t[6] == '/' && !IsSpace(t[7]))
        || (|t| > 8 && t[4] == 's' && t[5] == ':' && t[6] == '/' && t[7] == '/' && !IsSpace(t[8])))
  }

  /** `<img[^>]*>`, ignoring case: `<img` and everything up to the first `>`. */
  function ImageMatch(t: string): (r: Option<nat>)
    ensures r.Some? ==> 5 <= r.value <= |t|
  {
    if StartsCi(t, "<img") then
      match FindClose(t[4..])
      case Some(j) => Some(j + 5)
      case None => None
    else None
  }

  /** `<br\s*\/?>`, ignoring case. Backtracking never helps: once the whitespace run
      ends, only `>` or `/>` can finish the match. */
  function BreakMatch(t: string): (r: Option<nat>)
    ensures r.Some? ==> 4 <= r.value <= |t|
  {
    if StartsCi(t, "<br") then
      var k := 3 + LeadingSpaces(t[3..]);
      if k < |t| && t[k] == '>' then Some(k + 1)
      else if k + 1 < |t| && t[k] == '/' && t[k + 1] == '>' then Some(k + 2)
      else None
    else None
  }

  /** `<[^>]+>`: a `<`, at least one character other than `>`, up to the first `>`. */
  function TagMatch(t: string): (r: Option<nat>)
    ensures r.Some? ==> 3 <= r.value <= |t|
  {
    if 2 <= |t| && t[0] == '<' && t[1] != '>' then
      match FindClose(t[2..])
      case Some(j) => Some(j + 3)
      case None => None
    else None
  }

  /** `\s*\n\s*`. Greedy `\s*` takes the whole whitespace run, then gives back up to
      its last `\n`, and the trailing `\s*` takes the rest: the match is the whole run
      when it holds a `\n`, and there is none at any position of a run without one. */
  function AroundNewlineMatch(t: string): (r: Option<nat>)
    ensures r.Some? ==> 1 <= r.value <= |t|
  {
    var n := LeadingSpaces(t);
    if 0 < n && '\n' in t[..n] then Some(n) else None
  }

  /** `https?:\/\/[^\s]+`: the whole run of non-whitespace from the scheme on. */
  function UrlMatch(t: string): (r: Option<nat>)
    ensures r.Some? ==> 8 <= r.value <= |t|
  {
    if UrlStart(t) then
      Some(NonSpaceRun(t))
    else None
  }

  /** `\n{3,}`: a run of three or more line breaks, taken whole. */
  function BlankLinesMatch(t: string): (r: Option<nat>)
    ensures r.Some? ==> 3 <= r.value <= |t|
  {
    var n := NewlineRun(t);
    if n >= 3 then Some(n) else None
  }

  /** The title of the app-download block, lower-cased for `StartsCi`. */
  const PromoTitle: string := "korehalal trip app download"

  predicate IsAsciiLetter(c: char) {
    ('A' <= c <= 'Z') || ('a' <= c <= 'z')
  }

  /** The lookahead `(?=\n\n|\n[^A-Za-z]|$)` holds at position `p` of `t`. Under the `i`
      flag `[^A-Za-z]` still excludes exactly the ASCII letters, and a second `\n` is
      such a character, so the first alternative is covered by the second. */
  predicate PromoStop(t: string, p: nat)
    requires p <= |t|
  {
    p == |t| || (t[p] == '\n' && p + 1 < |t| && !IsAsciiLetter(t[p + 1]))
  }

  /** The lazy `[\s\S]*?`: the first position from `p` on where the lookahead holds. */
  function PromoEnd(t: string, p: nat): (e: nat)
    requires p <= |t|
    ensures p <= e <= |t| && PromoStop(t, e)
    ensures forall q :: p <= q < e ==> !PromoStop(t, q)
    decreases |t| - p
  {
    if PromoStop(t, p) then p else PromoEnd(t, p + 1)
  }

  /** The app-download block: `◼`, optional whitespace, the title in any ASCII case, and
      then as little as possible up to a blank line, a line break before a character that
      is not an ASCII letter, or the end of the text. The title starts with a letter, so
      the greedy whitespace run never gives anything back. */
  function PromoMatch(t: string): (r: Option<nat>)
    ensures r.Some? ==> |PromoTitle| < r.value <= |t|
    ensures r.Some? ==> t[0] == '◼' && PromoStop(t, r.value)
  {
    if |t| > 0 && t[0] == '◼' then
      var k := 1 + LeadingSpaces(t[1..]);
      if StartsCi(t[k..], PromoTitle) then Some(PromoEnd(t, k + |PromoTitle|)) else None
    else None
  }

  /** The match `rule` makes at the start of `t`: its length, or None. */
  function MatchAt(rule: Rule, t: string): (r: Option<nat>)
    ensures r.Some? ==> 0 < r.value <= |t| && |Replacement(rule)| <= r.value
    ensures r.Some? && rule != AroundNewline ==> |Replacement(rule)| < r.value
  {
    match rule
    case Image => ImageMatch(t)
    case Break => BreakMatch(t)
    case Tag => TagMatch(t)
    case AroundNewline => AroundNewlineMatch(t)
    case Url => UrlMatch(t)
    case BlankLines => BlankLinesMatch(t)
    case AppDownload => PromoMatch(t)
  }

  /** `s.replace(pattern, replacement)` with the `g` flag. */
  function Replace(rule: Rule, s: string): (r: string)
    ensures |r| <= |s|
    decreases |s|
  {
    if |s| == 0 then ""
    else match MatchAt(rule, s)
      case Some(n) => Replacement(rule) + Replace(rule, s[n..])
      case None => [s[0]] + Replace(rule, s[1..])
  }

  /** The pattern matches nowhere in `s`. */
  predicate NoMatch(rule: Rule, s: string) {
    forall i :: 0 <= i <= |s| ==> MatchAt(rule, s[i..]).None?
  }

  lemma NoMatchTail(rule: Rule, s: string)
    requires |s| > 0 && NoMatch(rule, s)
    ensures NoMatch(rule, s[1..])
  {
    forall i | 0 <= i <= |s| - 1
      ensures MatchAt(rule, s[1..][i..]).None?
    {
      assert s[1..][i..] == s[i + 1..];
    }
  }

  /** Where nothing matches at the head, the output starts with the input's head. */
  lemma ReplaceHead(rule: Rule, s: string)
    requires |s| > 0 && MatchAt(rule, s).None?
    ensures |Replace(rule, s)| > 0 && Replace(rule, s)[0] == s[0]
  {
  }

  /** Where nothing matches at the head, the head is copied and the rest replaced. */
  lemma ReplaceCons(rule: Rule, s: string)
    requires |s| > 0 && MatchAt(rule, s).None?
    ensures Replace(rule, s) == [s[0]] + Replace(rule, s[1..])
  {
  }

  /** A replacement that shortens its match changes the text exactly when the pattern
      matches somewhere: with no match it is the identity, and each match shortens it. */
  lemma {:induction false} ReplaceUnchangedIff(rule: Rule, s: string)
    requires rule != AroundNewline
    ensures Replace(rule, s) == s <==> NoMatch(rule, s)
    ensures !NoMatch(rule, s) ==> |Replace(rule, s)| < |s|
    decreases |s|
  {
    if |s| > 0 {
      if MatchAt(rule, s).Some? {
        MatchShortens(rule, s);
      } else {
        ReplaceUnchangedIff(rule, s[1..]);
        UnchangedCons(rule, s);
      }
    }
  }

  /** A match at the head is a match, and it shortens the text. */
  lemma MatchShortens(rule: Rule, s: string)
    requires rule != AroundNewline && |s| > 0 && MatchAt(rule, s).Some?
    ensures !NoMatch(rule, s) && |Replace(rule, s)| < |s|
  {
    assert s[0..] == s;
  }

  /** With no match at the head, `s` is left unchanged exactly when its tail is. */
  lemma UnchangedCons(rule: Rule, s: string)
    requires |s| > 0 && MatchAt(rule, s).None?
    requires Replace(rule, s[1..]) == s[1..] <==> NoMatch(rule, s[1..])
    requires !NoMatch(rule, s[1..]) ==> |Replace(rule, s[1..])| < |s[1..]|
    ensures Replace(rule, s) == s <==> NoMatch(rule, s)
    ensures !NoMatch(rule, s) ==> |Replace(rule, s)| < |s|
  {
    NoMatchCons(rule, s);
    ReplaceCons(rule, s);
    ConsUnchanged(s, Replace(rule, s[1..]));
  }

  lemma ConsUnchanged(s: string, t: string)
    requires |s| > 0
    ensures [s[0]] + t == s <==> t == s[1..]
    ensures |[s[0]] + t| < |s| <==> |t| < |s[1..]|
  {
    ConsEqual(s[0], t, s[1..]);
    assert s == [s[0]] + s[1..];
  }

  lemma ConsEqual(c: char, a: string, b: string)
    ensures [c] + a == [c] + b <==> a == b
  {
    if [c] + a == [c] + b {
      assert a == ([c] + a)[1..] && b == ([c] + b)[1..];
    }
  }

  /** Where nothing matches at the head, nothing matches in `s` exactly when nothing
      matches in its tail. */
  lemma NoMatchCons(rule: Rule, s: string)
    requires |s| > 0 && MatchAt(rule, s).None?
    ensures NoMatch(rule, s) <==> NoMatch(rule, s[1..])
  {
    if NoMatch(rule, s) {
      NoMatchTail(rule, s);
    }
    if NoMatch(rule, s[1..]) {
      forall i | 0 <= i <= |s|
        ensures MatchAt(rule, s[i..]).None?
      {
        if i == 0 {
          assert s[0..] == s;
        } else {
          assert s[1..][i - 1..] == s[i..];
        }
      }
    }
  }

  /** Every character of the output comes from the input or from the replacement text. */
  lemma {:induction false} ReplaceChars(rule: Rule, s: string)
    ensures forall c :: c in Replace(rule, s) ==> c in s || c in Replacement(rule)
    decreases |s|
  {
    if |s| > 0 {
      match MatchAt(rule, s)
      case Some(n) =>
        ReplaceChars(rule, s[n..]);
        assert forall c :: c in s[n..] ==> c in s;
      case None =>
        ReplaceChars(rule, s[1..]);
        assert forall c :: c in s[1..] ==> c in s;
    }
  }

  // ---------------------------------------------------------------------------
  // The tag strip: no tag is left.

  /** After the tag strip, no `<` is followed by one or more characters other than `>`
      and then a `>`. */
  lemma {:induction false} TagStripLeavesNoTag(s: string)
    ensures NoMatch(Tag, Replace(Tag, s))
    decreases |s|
  {
    var r := Replace(Tag, s);
    if |s| > 0 {
      match MatchAt(Tag, s)
      case Some(n) =>
        TagStripLeavesNoTag(s[n..]);
        assert r == Replace(Tag, s[n..]);
      case None =>
        var rest := Replace(Tag, s[1..]);
        TagStripLeavesNoTag(s[1..]);
        assert r == [s[0]] + rest;
        forall i | 0 <= i <= |r|
          ensures MatchAt(Tag, r[i..]).None?
        {
          if i > 0 {
            assert r[i..] == rest[i - 1..];
          } else if 2 <= |r| && r[0] == '<' && r[1] != '>' {
            // `s[0]` is a `<` that did not start a tag: either `s[1]` is `>`, which is
            // kept, or no `>` follows it, and the strip adds none.
            assert r[0..] == r;
            if 2 <= |s| && s[1] == '>' {
              ReplaceHead(Tag, s[1..]);
            } else {
              assert forall k :: 1 <= k < |s| ==> s[k] != '>' by {
                if 2 <= |s| {
                  var f := FindClose(s[2..]);
                  assert f.None?;
                  forall k | 2 <= k < |s| ensures s[k] != '>' {
                    assert s[2..][k - 2] == s[k];
                  }
                }
              }
              ReplaceChars(Tag, s[1..]);
              assert '>' !in s[1..];
              assert '>' !in rest;
              assert forall k :: 0 <= k < |r[2..]| ==> r[2..][k] == rest[k + 1];
            }
          }
        }
    }
  }

  /** The tag strip is idempotent. */
  lemma TagStripIdempotent(s: string)
    ensures Replace(Tag, Replace(Tag, s)) == Replace(Tag, s)
  {
    TagStripLeavesNoTag(s);
    ReplaceUnchangedIff(Tag, Replace(Tag, s));
  }

  // ---------------------------------------------------------------------------
  // Whitespace around line breaks.

  /** Every line break stands between non-whitespace characters (or an end). */
  predicate BareNewlines(s: string) {
    forall i :: 0 <= i < |s| && s[i] == '\n' ==>
      (i == 0 || !IsSpace(s[i - 1])) && (i + 1 == |s| || !IsSpace(s[i + 1]))
  }

  lemma AllSpaceRemoved(s: string)
    requires AllSpace(s)
    ensures RemoveSpaces(s) == ""
  {
  }

  /** What the collapse puts first: a `\n` for a whitespace run holding one, otherwise
      the input's first character. */
  lemma AroundNewlineHead(s: string)
    requires |s| > 0
    ensures |Replace(AroundNewline, s)| > 0
    ensures Replace(AroundNewline, s)[0] == if MatchAt(AroundNewline, s).Some? then '\n' else s[0]
  {
  }

  /** Inside a whitespace run without a line break, the next position has no match either. */
  lemma AroundNewlineRunGoesOn(s: string)
    requires |s| > 1 && IsSpace(s[0]) && MatchAt(AroundNewline, s).None?
    ensures s[1] != '\n' && MatchAt(AroundNewline, s[1..]).None?
  {
    var n := LeadingSpaces(s);
    assert LeadingSpaces(s[1..]) == n - 1;
    assert s[1..][..n - 1] == s[1..n];
    assert forall c :: c in s[1..n] ==> c in s[..n];
  }

  /** Putting `c` in front keeps every line break bare when `c` is not a line break
      before whitespace and not whitespace before a line break. */
  lemma BareCons(c: char, rest: string)
    requires BareNewlines(rest)
    requires c == '\n' && |rest| > 0 ==> !IsSpace(rest[0])
    requires |rest| > 0 && rest[0] == '\n' ==> !IsSpace(c)
    ensures BareNewlines([c] + rest)
  {
    var r := [c] + rest;
    forall i | 0 <= i < |r| && r[i] == '\n'
      ensures (i == 0 || !IsSpace(r[i - 1])) && (i + 1 == |r| || !IsSpace(r[i + 1]))
    {
      if i > 0 {
        assert r[i] == rest[i - 1];
      }
    }
  }

  /** After collapsing the whitespace around line breaks, every line break is bare. */
  lemma {:induction false} AroundNewlineBare(s: string)
    ensures BareNewlines(Replace(AroundNewline, s))
    decreases |s|
  {
    if |s| > 0 {
      var r := Replace(AroundNewline, s);
      match MatchAt(AroundNewline, s)
      case Some(n) =>
        var rest := Replace(AroundNewline, s[n..]);
        AroundNewlineBare(s[n..]);
        assert r == "\n" + rest;
        if n < |s| {
          AroundNewlineHead(s[n..]);
        }
        BareCons('\n', rest);
      case None =>
        var rest := Replace(AroundNewline, s[1..]);
        AroundNewlineBare(s[1..]);
        assert r == [s[0]] + rest;
        assert s[0] != '\n' by {
          if IsSpace(s[0]) {
            assert s[..LeadingSpaces(s)][0] == s[0];
          }
        }
        if |s| > 1 {
          AroundNewlineHead(s[1..]);
          if IsSpace(s[0]) {
            AroundNewlineRunGoesOn(s);
          }
        }
        BareCons(s[0], rest);
    }
  }

  /** Collapsing the whitespace around line breaks keeps every other character: with
      whitespace removed, input and output are the same text. */
  lemma {:induction false} AroundNewlineKeepsText(s: string)
    ensures RemoveSpaces(Replace(AroundNewline, s)) == RemoveSpaces(s)
    decreases |s|
  {
    if |s| > 0 {
      var r := Replace(AroundNewline, s);
      match MatchAt(AroundNewline, s)
      case Some(n) =>
        var rest := Replace(AroundNewline, s[n..]);
        AroundNewlineKeepsText(s[n..]);
        assert r == "\n" + rest;
        RemoveSpacesAppend("\n", rest);
        assert s == s[..n] + s[n..];
        RemoveSpacesAppend(s[..n], s[n..]);
        AllSpaceRemoved(s[..n]);
      case None =>
        var rest := Replace(AroundNewline, s[1..]);
        AroundNewlineKeepsText(s[1..]);
        assert r == [s[0]] + rest;
        RemoveSpacesAppend([s[0]], rest);
        assert s == [s[0]] + s[1..];
        RemoveSpacesAppend([s[0]], s[1..]);
    }
  }

  // ---------------------------------------------------------------------------
  // URL removal.

  lemma ConsPrefix(s: string, m: nat)
    requires 1 <= m <= |s|
    ensures s[..m] == [s[0]] + s[1..][..m - 1]
  {
  }

  /** `UrlStart` looks at no more than the first nine characters. */
  lemma UrlStartPrefix(t: string, u: string)
    requires UrlStart(t) && |t| <= |u| && u[..|t|] == t
    ensures UrlStart(u)
  {
    forall k | 0 <= k < |t|
      ensures u[k] == t[k]
    {
      assert u[..|t|][k] == u[k];
    }
  }

  lemma UrlStartNoSpace(t: string) returns (m: nat)
    requires UrlStart(t)
    ensures 8 <= m <= |t| && UrlStart(t[..m])
    ensures forall k :: 0 <= k < m ==> !IsSpace(t[k])
  {
    m := if t[4] == 's' then 9 else 8;
  }


  /** The URL strip keeps any leading run of non-whitespace output as it was: a
      removal always ends at whitespace or at the end of the text. */
  lemma {:induction false} UrlStripKeepsPrefix(s: string, k: nat)
    requires k <= |Replace(Url, s)|
    requires forall j :: 0 <= j < k ==> !IsSpace(Replace(Url, s)[j])
    ensures k <= |s| && s[..k] == Replace(Url, s)[..k]
    decreases |s|
  {
    var r := Replace(Url, s);
    if k > 0 {
      match MatchAt(Url, s)
      case Some(n) =>
        var rest := Replace(Url, s[n..]);
        assert r == rest;
        assert n == NonSpaceRun(s);
        if n < |s| {
          ReplaceHead(Url, s[n..]);
        }
        assert false;
      case None =>
        var rest := Replace(Url, s[1..]);
        assert r == [s[0]] + rest;
        assert forall j :: 0 <= j < k - 1 ==> rest[j] == r[j + 1];
        UrlStripKeepsPrefix(s[1..], k - 1);
        ConsPrefix(s, k);
        ConsPrefix(r, k);
    }
  }

  /** Where no URL starts at the head of the input, none starts at the head of the output. */
  lemma UrlStripHead(s: string)
    requires |s| > 0 && MatchAt(Url, s).None?
    ensures !UrlStart(Replace(Url, s))
  {
    ReplaceCons(Url, s);
    UrlStripTailHead(s);
  }

  /** The output of the tail, behind the input's head character, starts no URL. */
  lemma UrlStripTailHead(s: string)
    requires |s| > 0 && MatchAt(Url, s).None?
    ensures !UrlStart([s[0]] + Replace(Url, s[1..]))
  {
    var rest := Replace(Url, s[1..]);
    if UrlStart([s[0]] + rest) {
      var m := UrlStartNoSpace([s[0]] + rest);
      TailNoSpace(s[0], rest, m);
      UrlStripKeepsPrefix(s[1..], m - 1);
      UrlStartCons(s, [s[0]] + rest, m);
      assert false;
    }
  }

  lemma TailNoSpace(c: char, rest: string, m: nat)
    requires 1 <= m <= |rest| + 1
    requires forall k :: 0 <= k < m ==> !IsSpace(([c] + rest)[k])
    ensures forall j :: 0 <= j < m - 1 ==> !IsSpace(rest[j])
  {
    forall j | 0 <= j < m - 1
      ensures !IsSpace(rest[j])
    {
      assert ([c] + rest)[j + 1] == rest[j];
    }
  }

  /** A URL start in the first `m` characters of `r` is one in `s` when the two agree
      there. */
  lemma UrlStartCons(s: string, r: string, m: nat)
    requires |s| > 0 && 1 <= m <= |r| && r[0] == s[0] && UrlStart(r[..m])
    requires m - 1 <= |s| - 1 && s[1..][..m - 1] == r[1..][..m - 1]
    ensures UrlStart(s)
  {
    ConsPrefix(s, m);
    ConsPrefix(r, m);
    UrlStartPrefix(r[..m], s);
  }

  /** After the URL strip no URL is left. */
  lemma {:induction false} UrlStripLeavesNoUrl(s: string)
    ensures NoMatch(Url, Replace(Url, s))
    decreases |s|
  {
    var r := Replace(Url, s);
    if |s| > 0 {
      match MatchAt(Url, s)
      case Some(n) =>
        UrlStripLeavesNoUrl(s[n..]);
        assert r == Replace(Url, s[n..]);
      case None =>
        var rest := Replace(Url, s[1..]);
        UrlStripLeavesNoUrl(s[1..]);
        assert r == [s[0]] + rest;
        forall i | 0 <= i <= |r|
          ensures MatchAt(Url, r[i..]).None?
        {
          if i > 0 {
            assert r[i..] == rest[i - 1..];
          } else {
            UrlStripHead(s);
            assert r[0..] == r;
          }
        }
    }
  }

  // ---------------------------------------------------------------------------
  // Blank-line collapse.

  /** No three consecutive line breaks. */
  predicate NoTripleNewline(s: string) {
    forall i :: 0 <= i && i + 2 < |s| ==> !(s[i] == '\n' && s[i + 1] == '\n' && s[i + 2] == '\n')
  }

  /** The collapse keeps the first two characters. */
  lemma BlankLinesHead(s: string)
    requires |s| >= 2
    ensures |Replace(BlankLines, s)| >= 2
    ensures Replace(BlankLines, s)[..2] == s[..2]
  {
    if MatchAt(BlankLines, s).None? {
      if MatchAt(BlankLines, s[1..]).None? {
        ReplaceHead(BlankLines, s[1..]);
      }
    }
  }

  /** After the collapse no three line breaks are adjacent. */
  lemma {:induction false} BlankLinesCollapse(s: string)
    ensures NoTripleNewline(Replace(BlankLines, s))
    decreases |s|
  {
    var r := Replace(BlankLines, s);
    if |s| > 0 {
      match MatchAt(BlankLines, s)
      case Some(n) =>
        var rest := Replace(BlankLines, s[n..]);
        BlankLinesCollapse(s[n..]);
        assert r == "\n\n" + rest;
        if n < |s| {
          ReplaceHead(BlankLines, s[n..]);
        }
        forall i | 0 <= i && i + 2 < |r|
          ensures !(r[i] == '\n' && r[i + 1] == '\n' && r[i + 2] == '\n')
        {
          if i >= 2 {
            assert r[i] == rest[i - 2] && r[i + 1] == rest[i - 1] && r[i + 2] == rest[i];
          }
        }
      case None =>
        var rest := Replace(BlankLines, s[1..]);
        BlankLinesCollapse(s[1..]);
        assert r == [s[0]] + rest;
        if |s| >= 3 {
          BlankLinesHead(s[1..]);
          assert rest[0] == s[1] && rest[1] == s[2];
          assert !(s[0] == '\n' && s[1] == '\n' && s[2] == '\n');
        }
        forall i | 0 <= i && i + 2 < |r|
          ensures !(r[i] == '\n' && r[i + 1] == '\n' && r[i + 2] == '\n')
        {
          if i >= 1 {
            assert r[i] == rest[i - 1] && r[i + 1] == rest[i] && r[i + 2] == rest[i + 1];
          }
        }
    }
  }

  /** The collapse keeps any leading output that holds no line break as it was. */
  lemma {:induction false} BlankLinesKeepsPrefix(s: string, k: nat)
    requires k <= |Replace(BlankLines, s)|
    requires forall j :: 0 <= j < k ==> Replace(BlankLines, s)[j] != '\n'
    ensures k <= |s| && s[..k] == Replace(BlankLines, s)[..k]
    decreases |s|
  {
    var r := Replace(BlankLines, s);
    if k > 0 {
      assert MatchAt(BlankLines, s).None? by {
        if |s| >= 2 {
          BlankLinesHead(s);
          assert r[0] == s[0];
        }
      }
      var rest := Replace(BlankLines, s[1..]);
      assert r == [s[0]] + rest;
      assert forall j :: 0 <= j < k - 1 ==> rest[j] == r[j + 1];
      BlankLinesKeepsPrefix(s[1..], k - 1);
      ConsPrefix(s, k);
      ConsPrefix(r, k);
    }
  }

  /** Where no URL starts at the head of the input, none starts at the head of the
      collapsed output. */
  lemma BlankLinesHeadNoUrl(s: string)
    requires !UrlStart(s)
    ensures !UrlStart(Replace(BlankLines, s))
  {
    var r := Replace(BlankLines, s);
    if UrlStart(r) {
      var m := UrlStartNoSpace(r);
      BlankLinesKeepsPrefix(s, m);
      UrlStartPrefix(r[..m], s);
      assert false;
    }
  }


  /** The collapse brings no URL back. */
  lemma {:induction false} BlankLinesKeepNoUrl(s: string)
    requires NoMatch(Url, s)
    ensures NoMatch(Url, Replace(BlankLines, s))
    decreases |s|
  {
    var r := Replace(BlankLines, s);
    if |s| > 0 {
      match MatchAt(BlankLines, s)
      case Some(n) =>
        var rest := Replace(BlankLines, s[n..]);
        assert NoMatch(Url, s[n..]) by {
          forall i | 0 <= i <= |s| - n
            ensures MatchAt(Url, s[n..][i..]).None?
          {
            assert s[n..][i..] == s[n + i..];
          }
        }
        BlankLinesKeepNoUrl(s[n..]);
        assert r == "\n\n" + rest;
        forall i | 0 <= i <= |r|
          ensures MatchAt(Url, r[i..]).None?
        {
          if i >= 2 {
            assert r[i..] == rest[i - 2..];
          } else if i < |r| {
            assert r[i..][0] == '\n';
          }
        }
      case None =>
        var rest := Replace(BlankLines, s[1..]);
        NoMatchTail(Url, s);
        BlankLinesKeepNoUrl(s[1..]);
        assert r == [s[0]] + rest;
        assert s[0..] == s;
        forall i | 0 <= i <= |r|
          ensures MatchAt(Url, r[i..]).None?
        {
          if i > 0 {
            assert r[i..] == rest[i - 1..];
          } else {
            BlankLinesHeadNoUrl(s);
            assert r[0..] == r;
          }
        }
    }
  }

  /** A slice of a text without URLs has none either. */
  lemma NoUrlSlice(s: string, t: string, a: nat)
    requires a + |t| <= |s| && t == s[a..a + |t|] && NoMatch(Url, s)
    ensures NoMatch(Url, t)
  {
    forall i | 0 <= i <= |t|
      ensures MatchAt(Url, t[i..]).None?
    {
      assert s[a + i..][..|t[i..]|] == t[i..];
      UrlStartExtends(t[i..], s[a + i..]);
    }
  }

  /** A text that starts with a URL start starts with one too. */
  lemma UrlStartExtends(t: string, u: string)
    requires |t| <= |u| && u[..|t|] == t
    ensures UrlStart(t) ==> UrlStart(u)
  {
    if UrlStart(t) {
      UrlStartPrefix(t, u);
    }
  }


  /** A slice of a text without three adjacent line breaks has none either. */
  lemma NoTripleSlice(s: string, a: nat, b: nat)
    requires a <= b <= |s| && NoTripleNewline(s)
    ensures NoTripleNewline(s[a..b])
  {
    forall i | 0 <= i && i + 2 < b - a
      ensures !(s[a..b][i] == '\n' && s[a..b][i + 1] == '\n' && s[a..b][i + 2] == '\n')
    {
      assert s[a..b][i] == s[a + i] && s[a..b][i + 1] == s[a + i + 1] && s[a..b][i + 2] == s[a + i + 2];
    }
  }

  // ---------------------------------------------------------------------------
  // No tag comes back: the steps after the tag strip only delete text or put line
  // breaks in place of matches that start at neither `<` nor `>`.

  /** The character-level reading of "no tag matches anywhere": a `<` with a `>` somewhere
      after it is directly followed by a `>`. */
  predicate NoTagText(s: string) {
    forall i, j :: 0 <= i < j < |s| && s[i] == '<' && s[j] == '>' ==> s[i + 1] == '>'
  }

  /** `NoTagText` says exactly that `<[^>]+>` matches nowhere. */
  lemma NoTagIff(s: string)
    ensures NoMatch(Tag, s) <==> NoTagText(s)
  {
    if NoMatch(Tag, s) {
      forall i, j | 0 <= i < j < |s| && s[i] == '<' && s[j] == '>'
        ensures s[i + 1] == '>'
      {
        assert MatchAt(Tag, s[i..]).None?;
      }
    }
    if NoTagText(s) {
      forall i | 0 <= i <= |s|
        ensures MatchAt(Tag, s[i..]).None?
      {
        var t := s[i..];
        if 2 <= |t| && t[0] == '<' && t[1] != '>' {
          var f := FindClose(t[2..]);
        }
      }
    }
  }

  /** The rules whose matches start at neither `<` nor `>` and whose replacement holds
      neither. */
  predicate Plain(rule: Rule) {
    rule == AroundNewline || rule == Url || rule == BlankLines || rule == AppDownload
  }

  lemma PlainMatchStart(rule: Rule, t: string)
    requires Plain(rule)
    ensures |t| > 0 && (t[0] == '<' || t[0] == '>') ==> MatchAt(rule, t).None?
  {
    if |t| > 0 && rule == AroundNewline && LeadingSpaces(t) > 0 {
      assert t[..LeadingSpaces(t)][0] == t[0];
    }
    if |t| > 0 && rule == BlankLines && NewlineRun(t) > 0 {
      assert t[0] == '\n';
    }
  }

  lemma PlainReplacement(rule: Rule)
    requires Plain(rule)
    ensures '<' !in Replacement(rule) && '>' !in Replacement(rule)
  {
  }

  /** Any slice keeps `NoTagText`: the character after a kept `<` lies before a kept `>`. */
  lemma NoTagSlice(s: string, a: nat, b: nat)
    requires a <= b <= |s| && NoTagText(s)
    ensures NoTagText(s[a..b])
  {
    var t := s[a..b];
    forall i, j | 0 <= i < j < |t| && t[i] == '<' && t[j] == '>'
      ensures t[i + 1] == '>'
    {
      assert t[i] == s[a + i] && t[j] == s[a + j] && t[i + 1] == s[a + i + 1];
    }
  }

  /** Putting text without `<` in front keeps `NoTagText`. */
  lemma NoTagPrefix(u: string, t: string)
    requires '<' !in u && NoTagText(t)
    ensures NoTagText(u + t)
  {
    var r := u + t;
    assert forall k :: 0 <= k < |u| ==> r[k] == u[k] && r[k] != '<';
    forall i, j | 0 <= i < j < |r| && r[i] == '<' && r[j] == '>'
      ensures r[i + 1] == '>'
    {
      assert r[i] == t[i - |u|] && r[j] == t[j - |u|] && r[i + 1] == t[i + 1 - |u|];
    }
  }

  /** Putting one character in front keeps `NoTagText` when a `<` there would be directly
      followed by `>` whenever any `>` follows. */
  lemma NoTagCons(c: char, t: string)
    requires NoTagText(t)
    requires c == '<' && '>' in t ==> |t| > 0 && t[0] == '>'
    ensures NoTagText([c] + t)
  {
    var r := [c] + t;
    forall i, j | 0 <= i < j < |r| && r[i] == '<' && r[j] == '>'
      ensures r[i + 1] == '>'
    {
      if i == 0 {
        assert r[j] == t[j - 1];
      } else {
        assert r[i] == t[i - 1] && r[j] == t[j - 1] && r[i + 1] == t[i];
      }
    }
  }

  /** A plain rule brings no tag back. */
  lemma {:induction false} ReplaceKeepsNoTag(rule: Rule, s: string)
    requires Plain(rule) && NoTagText(s)
    ensures NoTagText(Replace(rule, s))
    decreases |s|
  {
    if |s| > 0 {
      match MatchAt(rule, s)
      case Some(n) =>
        NoTagSlice(s, n, |s|);
        assert s[n..|s|] == s[n..];
        ReplaceKeepsNoTag(rule, s[n..]);
        PlainReplacement(rule);
        NoTagPrefix(Replacement(rule), Replace(rule, s[n..]));
      case None =>
        var rest := Replace(rule, s[1..]);
        NoTagSlice(s, 1, |s|);
        assert s[1..|s|] == s[1..];
        ReplaceKeepsNoTag(rule, s[1..]);
        if s[0] == '<' && '>' in rest {
          ReplaceChars(rule, s[1..]);
          PlainReplacement(rule);
          var j :| 0 <= j < |s[1..]| && s[1..][j] == '>';
          assert s[j + 1] == '>';
          PlainMatchStart(rule, s[1..]);
          ReplaceHead(rule, s[1..]);
        }
        NoTagCons(s[0], rest);
        ReplaceCons(rule, s);
    }
  }

  /** Trimming brings no tag back. */
  lemma TrimKeepsNoTag(s: string)
    requires NoTagText(s)
    ensures NoTagText(Trim(s))
  {
    TrimSlice(s);
    NoTagSlice(s, LeadingSpaces(s), LeadingSpaces(s) + |Trim(s)|);
  }
}
