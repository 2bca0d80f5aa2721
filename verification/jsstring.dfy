/**
 * The JavaScript string primitives the converter relies on: the `\s` /
 * `trim()` whitespace class, `trim()`, removal of every whitespace run,
 * `split(',')`, and the UTF-16 code units `charCodeAt` reads.
 */
module JsString {
  import opened Wrappers

  /** WhiteSpace and LineTerminator of ECMAScript: the set `\s` and `trim()` share. */
  predicate IsSpace(c: char) {
    c == '\t' || c == '\n' || c == '\U{B}' || c == '\U{C}' || c == '\r' || c == ' '
    || c == '\U{A0}' || c == '\U{1680}' || ('\U{2000}' <= c <= '\U{200A}')
    || c == '\U{2028}' || c == '\U{2029}' || c == '\U{202F}' || c == '\U{205F}'
    || c == '\U{3000}' || c == '\U{FEFF}'
  }

  predicate AllSpace(s: string) {
    forall i :: 0 <= i < |s| ==> IsSpace(s[i])
  }

  predicate NoSpace(s: string) {
    forall i :: 0 <= i < |s| ==> !IsSpace(s[i])
  }

  /** Neither the first nor the last character is whitespace. */
  predicate Trimmed(s: string) {
    |s| == 0 || (!IsSpace(s[0]) && !IsSpace(s[|s| - 1]))
  }

  /** Number of leading whitespace characters. */
  function LeadingSpaces(s: string): (n: nat)
    ensures n <= |s|
    ensures AllSpace(s[..n])
    ensures n < |s| ==> !IsSpace(s[n])
  {
    if |s| == 0 || !IsSpace(s[0]) then 0
    else 1 + LeadingSpaces(s[1..])
  }

  /** Length of `s` once its trailing whitespace is dropped. */
  function TrailingStart(s: string): (n: nat)
    ensures n <= |s|
    ensures AllSpace(s[n..])
    ensures n > 0 ==> !IsSpace(s[n - 1])
  {
    if |s| == 0 || !IsSpace(s[|s| - 1]) then |s|
    else TrailingStart(s[..|s| - 1])
  }

  /** `String.prototype.trim`, also `replace(/^\s+|\s+$/g, '')`. */
  function Trim(s: string): (r: string)
    ensures Trimmed(r)
    ensures exists k :: 0 <= k && k + |r| <= |s| && s[k..k + |r|] == r
                        && AllSpace(s[..k]) && AllSpace(s[k + |r|..])
  {
    var a := LeadingSpaces(s);
    var t := s[a..];
    var b := TrailingStart(t);
    var r := t[..b];
    assert s[a..a + |r|] == r;
    assert s[a + |r|..] == t[b..];
    r
  }

  /** `trim()` cuts the slice that starts after the leading whitespace. */
  lemma TrimSlice(s: string)
    ensures LeadingSpaces(s) + |Trim(s)| <= |s|
    ensures Trim(s) == s[LeadingSpaces(s)..LeadingSpaces(s) + |Trim(s)|]
  {
  }

  /** Trimming leaves an already trimmed string alone, so `trim()` is idempotent. */
  lemma TrimOfTrimmed(s: string)
    requires Trimmed(s)
    ensures Trim(s) == s
  {
  }

  lemma TrimIdempotent(s: string)
    ensures Trim(Trim(s)) == Trim(s)
  {
    TrimOfTrimmed(Trim(s));
  }

  /** `replace(/\s+/g, '')`: every whitespace character removed. */
  function RemoveSpaces(s: string): (r: string)
    ensures NoSpace(r)
    ensures forall c :: c in r <==> c in s && !IsSpace(c)
    ensures |r| <= |s|
  {
    if |s| == 0 then ""
    else if IsSpace(s[0]) then RemoveSpaces(s[1..])
    else [s[0]] + RemoveSpaces(s[1..])
  }

  /** Removing whitespace distributes over concatenation. */
  lemma {:induction false} RemoveSpacesAppend(a: string, b: string)
    ensures RemoveSpaces(a + b) == RemoveSpaces(a) + RemoveSpaces(b)
  {
    if |a| == 0 {
      assert a + b == b;
    } else {
      assert (a + b)[1..] == a[1..] + b;
      RemoveSpacesAppend(a[1..], b);
    }
  }

  /** A string with no whitespace is left unchanged. */
  lemma {:induction false} RemoveSpacesOfNoSpace(s: string)
    requires NoSpace(s)
    ensures RemoveSpaces(s) == s
  {
    if |s| > 0 {
      RemoveSpacesOfNoSpace(s[1..]);
    }
  }

  /** `s.split(sep)` for a one-character separator. */
  function Split(s: string, sep: char): (r: seq<string>)
    ensures |r| >= 1
    ensures forall i :: 0 <= i < |r| ==> sep !in r[i]
  {
    if |s| == 0 then [""]
    else
      var rest := Split(s[1..], sep);
      if s[0] == sep then [""] + rest
      else [[s[0]] + rest[0]] + rest[1..]
  }

  /** `parts.join(sep)`, the inverse of `Split`. */
  function Join(parts: seq<string>, sep: char): string
    requires |parts| >= 1
  {
    if |parts| == 1 then parts[0]
    else parts[0] + [sep] + Join(parts[1..], sep)
  }

  /** Splitting and re-joining gives back the original text. */
  lemma {:induction false} JoinSplit(s: string, sep: char)
    ensures Join(Split(s, sep), sep) == s
  {
    if |s| > 0 {
      var rest := Split(s[1..], sep);
      JoinSplit(s[1..], sep);
      if s[0] == sep {
        assert Split(s, sep) == [""] + rest;
        assert ([""] + rest)[1..] == rest;
      } else {
        var r := Split(s, sep);
        assert r[0] == [s[0]] + rest[0];
        if |rest| == 1 {
          assert Join(r, sep) == [s[0]] + rest[0];
        } else {
          assert r[1..] == rest[1..];
          assert Join(rest, sep) == rest[0] + [sep] + Join(rest[1..], sep);
        }
      }
    }
  }

  /** Joining separator-free parts and splitting again gives back the parts. */
  lemma {:induction false} SplitJoin(parts: seq<string>, sep: char)
    requires |parts| >= 1
    requires forall i :: 0 <= i < |parts| ==> sep !in parts[i]
    ensures Split(Join(parts, sep), sep) == parts
  {
    if |parts| == 1 {
      SplitNoSep(parts[0], sep);
    } else {
      SplitJoin(parts[1..], sep);
      SplitPrefix(parts[0], [sep] + Join(parts[1..], sep), sep);
      assert parts[0] + [sep] + Join(parts[1..], sep) == parts[0] + ([sep] + Join(parts[1..], sep));
      assert ([sep] + Join(parts[1..], sep))[1..] == Join(parts[1..], sep);
      assert [parts[0]] + parts[1..] == parts;
    }
  }

  lemma {:induction false} SplitNoSep(s: string, sep: char)
    requires sep !in s
    ensures Split(s, sep) == [s]
  {
    if |s| > 0 {
      SplitNoSep(s[1..], sep);
      assert [s[0]] + s[1..] == s;
    }
  }

  /** Splitting `a + sep + rest`, with no separator in `a`, yields `a` then the pieces of `rest`. */
  lemma {:induction false} SplitPrefix(a: string, t: string, sep: char)
    requires sep !in a
    requires |t| > 0 && t[0] == sep
    ensures Split(a + t, sep) == [a] + Split(t[1..], sep)
  {
    if |a| == 0 {
      assert a + t == t;
    } else {
      assert (a + t)[1..] == a[1..] + t;
      SplitPrefix(a[1..], t, sep);
      assert [a[0]] + a[1..] == a;
    }
  }

  /** A UTF-16 code unit, the value `charCodeAt` returns. */
  type CodeUnit = x: int | 0 <= x < 0x1_0000

  /** The code units of one character: itself, or a surrogate pair above U+FFFF. */
  function Utf16Char(c: char): (r: seq<CodeUnit>)
    ensures 1 <= |r| <= 2
    ensures |r| == 1 <==> (c as int) < 0x1_0000
    ensures |r| == 2 ==> 0xD800 <= r[0] < 0xDC00 && 0xDC00 <= r[1] < 0xE000
    ensures |r| == 1 ==> !(0xD800 <= r[0] < 0xE000)
  {
    var v := c as int;
    if v < 0x1_0000 then [v]
    else [0xD800 + (v - 0x1_0000) / 0x400, 0xDC00 + (v - 0x1_0000) % 0x400]
  }

  /** A JavaScript string's code units, as `input.length` and `charCodeAt` see them. */
  function Utf16(s: string): (r: seq<CodeUnit>)
    ensures |r| >= |s|
  {
    if |s| == 0 then [] else Utf16Char(s[0]) + Utf16(s[1..])
  }

  /** Decoding of well-formed UTF-16, the partner of `Utf16`; lone surrogates fail. */
  function DecodeUtf16(us: seq<CodeUnit>): Option<string>
    decreases |us|
  {
    if |us| == 0 then Some("")
    else if 0xD800 <= us[0] < 0xDC00 then
      if |us| >= 2 && 0xDC00 <= us[1] < 0xE000 then
        var v: int := 0x1_0000 + (us[0] as int - 0xD800) * 0x400 + (us[1] as int - 0xDC00);
        match DecodeUtf16(us[2..])
        case None => None
        case Some(rest) => Some([v as char] + rest)
      else None
    else if 0xDC00 <= us[0] < 0xE000 then None
    else
      match DecodeUtf16(us[1..])
      case None => None
      case Some(rest) => Some([us[0] as char] + rest)
  }

  /** The encoding loses nothing: decoding it returns the string. */
  lemma {:induction false} Utf16RoundTrip(s: string)
    ensures DecodeUtf16(Utf16(s)) == Some(s)
  {
    if |s| > 0 {
      var c := s[0];
      var u := Utf16Char(c);
      Utf16RoundTrip(s[1..]);
      assert Utf16(s) == u + Utf16(s[1..]);
      if |u| == 2 {
        var v := c as int;
        assert (u + Utf16(s[1..]))[2..] == Utf16(s[1..]);
        assert 0x1_0000 + (u[0] as int - 0xD800) * 0x400 + (u[1] as int - 0xDC00) == v;
      } else {
        assert (u + Utf16(s[1..]))[1..] == Utf16(s[1..]);
      }
      assert [c] + s[1..] == s;
    }
  }
}
