/**
 * The list operations behind the `cities` and `categories` exports:
 * `[...new Set(xs)]`, which keeps the first occurrence of each string, and
 * `Array.prototype.sort` with no comparator, which orders strings by their
 * UTF-16 code units.
 */
module Ordering {
  import opened JsString

  /** Lexicographic order on code units: a proper prefix comes first. */
  predicate UnitsBefore(a: seq<CodeUnit>, b: seq<CodeUnit>)
    decreases |a|
  {
    |b| > 0 && (|a| == 0 || a[0] < b[0] || (a[0] == b[0] && UnitsBefore(a[1..], b[1..])))
  }

  /** The default sort order: compare the strings' UTF-16 code units. */
  predicate Before(a: string, b: string) {
    UnitsBefore(Utf16(a), Utf16(b))
  }

  lemma {:induction false} UnitsIrreflexive(a: seq<CodeUnit>)
    ensures !UnitsBefore(a, a)
    decreases |a|
  {
    if |a| > 0 {
      UnitsIrreflexive(a[1..]);
    }
  }

  lemma {:induction false} UnitsTransitive(a: seq<CodeUnit>, b: seq<CodeUnit>, c: seq<CodeUnit>)
    requires UnitsBefore(a, b) && UnitsBefore(b, c)
    ensures UnitsBefore(a, c)
    decreases |a|
  {
    if |a| > 0 && a[0] == b[0] && b[0] == c[0] {
      UnitsTransitive(a[1..], b[1..], c[1..]);
    }
  }

  lemma {:induction false} UnitsTotal(a: seq<CodeUnit>, b: seq<CodeUnit>)
    requires a != b
    ensures UnitsBefore(a, b) || UnitsBefore(b, a)
    decreases |a|
  {
    if |a| > 0 && |b| > 0 && a[0] == b[0] {
      assert a == [a[0]] + a[1..] && b == [b[0]] + b[1..];
      UnitsTotal(a[1..], b[1..]);
    }
  }

  /** `Before` is a strict total order on strings. */
  lemma BeforeIrreflexive(a: string)
    ensures !Before(a, a)
  {
    UnitsIrreflexive(Utf16(a));
  }

  lemma BeforeTransitive(a: string, b: string, c: string)
    requires Before(a, b) && Before(b, c)
    ensures Before(a, c)
  {
    UnitsTransitive(Utf16(a), Utf16(b), Utf16(c));
  }

  lemma BeforeTotal(a: string, b: string)
    requires a != b
    ensures Before(a, b) || Before(b, a)
  {
    Utf16RoundTrip(a);
    Utf16RoundTrip(b);
    UnitsTotal(Utf16(a), Utf16(b));
  }

  /** Every element before every later one. */
  predicate StrictlySorted(s: seq<string>) {
    forall i, j :: 0 <= i < j < |s| ==> Before(s[i], s[j])
  }

  /** No element occurs twice. */
  predicate Distinct(s: seq<string>) {
    forall i, j :: 0 <= i < j < |s| ==> s[i] != s[j]
  }

  /** `[...new Set(xs)]`: each string once, at its first occurrence. */
  function Dedupe(xs: seq<string>): (r: seq<string>)
    ensures Distinct(r)
    ensures forall x :: x in r <==> x in xs
    decreases |xs|
  {
    if |xs| == 0 then []
    else
      var d := Dedupe(xs[..|xs| - 1]);
      var x := xs[|xs| - 1];
      assert forall y :: y in xs <==> y in xs[..|xs| - 1] || y == x by {
        assert xs == xs[..|xs| - 1] + [x];
      }
      if x in d then d else d + [x]
  }

  /** The first occurrences are kept in order: dedupe of a list that grows at its end
      grows at its end, by the new string only when it was not there yet. */
  lemma DedupeSnoc(xs: seq<string>, x: string)
    ensures Dedupe(xs + [x]) == if x in xs then Dedupe(xs) else Dedupe(xs) + [x]
  {
    assert (xs + [x])[..|xs|] == xs;
  }

  /** A list's multiset is its head's plus its tail's. */
  lemma MultisetCons(s: seq<string>)
    requires |s| > 0
    ensures multiset(s) == multiset{s[0]} + multiset(s[1..])
  {
    assert s == [s[0]] + s[1..];
  }

  /** One step of insertion sort. */
  function Insert(x: string, s: seq<string>): (r: seq<string>)
    ensures multiset(r) == multiset(s) + multiset{x}
    decreases |s|
  {
    if |s| == 0 then [x]
    else if Before(x, s[0]) then [x] + s
    else
      MultisetCons(s);
      [s[0]] + Insert(x, s[1..])
  }

  /** `Array.prototype.sort()` on strings: the same strings, ordered by `Before`. */
  function Sort(s: seq<string>): (r: seq<string>)
    ensures multiset(r) == multiset(s)
    decreases |s|
  {
    if |s| == 0 then []
    else
      MultisetCons(s);
      Insert(s[0], Sort(s[1..]))
  }

  lemma {:induction false} InsertSorted(x: string, s: seq<string>)
    requires StrictlySorted(s) && x !in s
    ensures StrictlySorted(Insert(x, s))
    decreases |s|
  {
    if |s| > 0 {
      if Before(x, s[0]) {
        forall j | 0 <= j < |s|
          ensures Before(x, s[j])
        {
          if j > 0 {
            BeforeTransitive(x, s[0], s[j]);
          }
        }
      } else {
        BeforeTotal(x, s[0]);
        assert StrictlySorted(s[1..]);
        assert x !in s[1..];
        InsertSorted(x, s[1..]);
        InsertAbove(s[0], x, s[1..]);
      }
    }
  }

  /** A string before `x` and before everything in `s` is before everything in
      `Insert(x, s)`. */
  lemma InsertAbove(y: string, x: string, s: seq<string>)
    requires Before(y, x)
    requires forall j :: 0 <= j < |s| ==> Before(y, s[j])
    ensures forall j :: 0 <= j < |Insert(x, s)| ==> Before(y, Insert(x, s)[j])
  {
    var t := Insert(x, s);
    forall j | 0 <= j < |t|
      ensures Before(y, t[j])
    {
      assert t[j] in multiset(t);
      if t[j] != x {
        assert t[j] in multiset(s);
        var k :| 0 <= k < |s| && s[k] == t[j];
      }
    }
  }

  /** Sorting a list without repeats gives a strictly sorted list. */
  lemma {:induction false} SortSorted(s: seq<string>)
    requires Distinct(s)
    ensures StrictlySorted(Sort(s))
    decreases |s|
  {
    if |s| > 0 {
      assert Distinct(s[1..]);
      SortSorted(s[1..]);
      assert s[0] !in s[1..];
      var t := Sort(s[1..]);
      assert s[0] !in multiset(t);
      InsertSorted(s[0], t);
      assert Sort(s) == Insert(s[0], t);
    }
  }

  lemma HeadIn(s: seq<string>)
    ensures |s| > 0 ==> s[0] in s
  {
  }

  /** A strictly sorted list is determined by its elements: this is the reference
      definition the sorted exports are compared against. */
  lemma {:induction false} SortedUnique(a: seq<string>, b: seq<string>)
    requires StrictlySorted(a) && StrictlySorted(b)
    requires forall x :: x in a <==> x in b
    ensures a == b
    decreases |a|
  {
    if |a| > 0 {
      assert a[0] in b;
      assert b[0] in a;
      var i :| 0 <= i < |a| && a[i] == b[0];
      var j :| 0 <= j < |b| && b[j] == a[0];
      if j > 0 {
        if i == 0 {
          BeforeIrreflexive(a[0]);
        } else {
          BeforeTransitive(a[0], a[i], a[0]);
          BeforeIrreflexive(a[0]);
        }
        assert false;
      }
      forall x
        ensures x in a[1..] <==> x in b[1..]
      {
        if x in a[1..] {
          var k :| 1 <= k < |a| && a[k] == x;
          BeforeIrreflexive(a[0]);
          assert x != a[0];
          assert x in b;
          assert a == [a[0]] + a[1..] && b == [b[0]] + b[1..];
        }
        if x in b[1..] {
          var k :| 1 <= k < |b| && b[k] == x;
          BeforeIrreflexive(b[0]);
          assert x != b[0];
          assert x in a;
          assert a == [a[0]] + a[1..] && b == [b[0]] + b[1..];
        }
      }
      SortedUnique(a[1..], b[1..]);
      assert a == [a[0]] + a[1..] && b == [b[0]] + b[1..];
    } else {
      HeadIn(b);
    }
  }

  /** `[...new Set(xs)].sort()`: the strings of `xs`, each once, in code-unit order; it is
      the only strictly sorted list of exactly those strings. */
  function SortedSet(xs: seq<string>): (r: seq<string>)
    ensures StrictlySorted(r)
    ensures forall x :: x in r <==> x in xs
  {
    var d := Dedupe(xs);
    SortSorted(d);
    var r := Sort(d);
    assert forall x :: x in r <==> x in multiset(d);
    r
  }

  /** The export depends only on which strings occur: order and repeats in the input
      do not matter. */
  lemma SortedSetOfSameStrings(xs: seq<string>, ys: seq<string>)
    requires forall x :: x in xs <==> x in ys
    ensures SortedSet(xs) == SortedSet(ys)
  {
    SortedUnique(SortedSet(xs), SortedSet(ys));
  }
}
