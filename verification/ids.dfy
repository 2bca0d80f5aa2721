/**
 * Record identifiers: a 32-bit rolling hash of `name:lat:lng` (coordinates
 * written with `toFixed(6)`) in base 36, an underscore, the base-36 absolute
 * microdegrees of latitude and longitude, all cut to 20 characters.
 */
module Ids {
  import opened Wrappers
  import opened JsString
  import opened JsNumber

  const Two31: int := 0x8000_0000
  const Two32: int := 0x1_0000_0000

  predicate IsInt32(x: int) {
    -Two31 <= x < Two31
  }

  /** ECMAScript ToInt32 on an integral value: reduce modulo 2^32 into [-2^31, 2^31). */
  function ToInt32(x: int): (r: int)
    ensures IsInt32(r)
    ensures (x - r) % Two32 == 0
  {
    var m := x % Two32;
    if m >= Two31 then m - Two32 else m
  }

  /** `hash << 5`: the operand is converted to 32 bits and the product wraps to 32 bits. */
  function ShiftLeft5(h: int): int {
    ToInt32(ToInt32(h) * 32)
  }

  /** One loop step: `hash = ((hash << 5) - hash) + char; hash = hash & hash`.
      The subtraction and addition are exact in doubles; `x & x` is ToInt32(x). */
  function HashStep(h: int, c: CodeUnit): (r: int)
    ensures IsInt32(r)
  {
    ToInt32((ShiftLeft5(h) - h) + c)
  }

  /** The hash of a code-unit sequence: the loop, as a left fold from 0. */
  function Hash(us: seq<CodeUnit>): (r: int)
    ensures IsInt32(r)
  {
    if |us| == 0 then 0 else HashStep(Hash(us[..|us| - 1]), us[|us| - 1])
  }

  /** Two integers that agree modulo 2^32 have the same ToInt32. */
  lemma ToInt32Congruent(x: int, y: int)
    requires (x - y) % Two32 == 0
    ensures ToInt32(x) == ToInt32(y)
  {
    var k := (x - y) / Two32;
    assert x == y + k * Two32;
    ModShift(y, k);
  }

  lemma ModShift(y: int, k: int)
    ensures (y + k * Two32) % Two32 == y % Two32
  {
  }

  /** A step is `wrap_int32(31 * hash + code unit)`. */
  lemma HashStepWraps(h: int, c: CodeUnit)
    requires IsInt32(h)
    ensures HashStep(h, c) == ToInt32(31 * h + c)
  {
    var s := ToInt32(h * 32);
    assert ToInt32(h) == h;
    assert (h * 32 - s) % Two32 == 0;
    ToInt32Congruent(s - h + c, 31 * h + c);
  }

  /** The unbounded polynomial `sum us[i] * 31^(n-1-i)` that the hash reduces. */
  function Polynomial(us: seq<CodeUnit>): int {
    if |us| == 0 then 0 else 31 * Polynomial(us[..|us| - 1]) + us[|us| - 1]
  }

  /** Wrapping at every step equals wrapping once at the end: the hash is the
      32-bit reduction of the polynomial hash. */
  lemma {:induction false} HashIsReducedPolynomial(us: seq<CodeUnit>)
    ensures Hash(us) == ToInt32(Polynomial(us))
  {
    if |us| > 0 {
      var front := us[..|us| - 1];
      var c := us[|us| - 1];
      HashIsReducedPolynomial(front);
      var h := Hash(front);
      var p := Polynomial(front);
      HashStepWraps(h, c);
      assert (p - h) % Two32 == 0;
      MulCongruent(p, h);
      ToInt32Congruent(31 * h + c, 31 * p + c);
    }
  }

  lemma MulCongruent(p: int, h: int)
    requires (p - h) % Two32 == 0
    ensures ((31 * h) - (31 * p)) % Two32 == 0
  {
    var k := (p - h) / Two32;
    assert p - h == k * Two32;
    assert 31 * h - 31 * p == (-31 * k) * Two32;
  }

  /** The hash loop of `generateId`, over the input's UTF-16 code units. */
  method ComputeHash(us: seq<CodeUnit>) returns (hash: int)
    ensures IsInt32(hash)
    ensures hash == ToInt32(Polynomial(us))
  {
    hash := 0;
    var i := 0;
    while i < |us|
      invariant 0 <= i <= |us|
      invariant hash == Hash(us[..i])
    {
      assert us[..i + 1][..i] == us[..i];
      hash := ((ShiftLeft5(hash) - hash) + us[i]);
      hash := ToInt32(hash);
      i := i + 1;
    }
    assert us[..|us|] == us;
    HashIsReducedPolynomial(us);
  }

  /** The text `generateId` hashes: `${name}:${lat.toFixed(6)}:${lng.toFixed(6)}`. The
      coordinate texts hold no colon, so the text can be read back at its last two
      colons: it determines the name and both coordinates to six decimals. */
  function IdInput(name: string, lat: real, lng: real): (r: string)
    ensures Unjoin(r) == Some((name, ToFixed6(lat), ToFixed6(lng)))
  {
    var a := ToFixed6(lat);
    var b := ToFixed6(lng);
    FixedHasNoColon(a);
    FixedHasNoColon(b);
    JoinReadsBack(name, a, b);
    name + ":" + a + ":" + b
  }

  /** Joining a name and two colon-free texts with colons, then reading back, gives the
      three parts. */
  lemma JoinReadsBack(name: string, a: string, b: string)
    requires ':' !in a && ':' !in b
    ensures Unjoin(name + ":" + a + ":" + b) == Some((name, a, b))
  {
    var r := name + ":" + a + ":" + b;
    LastColonOf(name + ":" + a, b);
    assert r[..|name| + 1 + |a|] == name + ":" + a;
    LastColonOf(name, a);
    assert r[..|name|] == name;
    assert r[|name| + 1..|name| + 1 + |a|] == a;
    assert r[|name| + 1 + |a| + 1..] == b;
  }

  /** Position of the last `:` in `s`, if any. */
  function LastColon(s: string): (k: Option<nat>)
    ensures k.Some? ==> k.value < |s| && s[k.value] == ':' && ':' !in s[k.value + 1..]
    ensures k.None? ==> ':' !in s
    decreases |s|
  {
    if |s| == 0 then None
    else if s[|s| - 1] == ':' then Some(|s| - 1)
    else
      var k := LastColon(s[..|s| - 1]);
      assert s == s[..|s| - 1] + [s[|s| - 1]];
      if k.Some? then
        assert s[k.value + 1..] == s[..|s| - 1][k.value + 1..] + [s[|s| - 1]];
        k
      else k
  }

  /** Reads `name:lat:lng` back into its three parts, splitting at the last two colons. */
  function Unjoin(s: string): Option<(string, string, string)> {
    match LastColon(s)
    case None => None
    case Some(j) =>
      match LastColon(s[..j])
      case None => None
      case Some(i) => Some((s[..i], s[i + 1..j], s[j + 1..]))
  }

  /** A colon followed by colon-free text is the last colon. */
  lemma {:induction false} LastColonOf(u: string, v: string)
    requires ':' !in v
    ensures LastColon(u + ":" + v) == Some(|u|)
    decreases |v|
  {
    var s := u + ":" + v;
    if |v| > 0 {
      assert s[..|s| - 1] == u + ":" + v[..|v| - 1];
      assert s[|s| - 1] == v[|v| - 1];
      LastColonOf(u, v[..|v| - 1]);
    }
  }

  /** `toFixed(6)` text is made of digits, a point and perhaps a minus sign. */
  lemma FixedHasNoColon(r: string)
    requires FixedShape(r)
    ensures ':' !in r
  {
    var neg := |r| > 0 && r[0] == '-';
    var body := if neg then r[1..] else r;
    forall i | 0 <= i < |r|
      ensures r[i] != ':'
    {
      if !(neg && i == 0) {
        var k := if neg then i - 1 else i;
        assert r[i] == body[k];
        if k < |body| - 7 {
          assert body[..|body| - 7][k] == body[k];
        } else if k > |body| - 7 {
          assert body[|body| - 6..][k - (|body| - 6)] == body[k];
        }
      }
    }
  }

  /** `Math.abs(Math.round(x * 1000000)).toString(36)`. */
  function MicroPart(x: real): (r: string)
    ensures |r| >= 1 && AllRadix(r)
    ensures '_' !in r
  {
    ToRadix(Abs(Round(x * 1000000.0)), 36)
  }

  /** The base-36 hash part: `Math.abs(hash).toString(36)`. */
  function HashPart(name: string, lat: real, lng: real): (r: string)
    ensures 1 <= |r| <= 6 && AllRadix(r)
    ensures '_' !in r
  {
    var h := Hash(Utf16(IdInput(name, lat, lng)));
    assert Abs(h) < Pow(36, 6) by {
      assert Pow(36, 6) == 2176782336;
    }
    ToRadixLength(Abs(h), 36, 6);
    ToRadix(Abs(h), 36)
  }

  predicate IsIdChar(c: char) {
    IsRadixChar(c) || c == '_'
  }

  /** `generateId(name, lat, lng)`. */
  function GenerateId(name: string, lat: real, lng: real): (r: string)
    ensures 3 <= |r| <= 20
    ensures forall i :: 0 <= i < |r| ==> IsIdChar(r[i])
  {
    var full := HashPart(name, lat, lng) + "_" + MicroPart(lat) + MicroPart(lng);
    IdCharsJoin(HashPart(name, lat, lng), MicroPart(lat), MicroPart(lng));
    if |full| <= 20 then full else full[..20]
  }

  /** Base-36 digits joined by an underscore are id characters throughout. */
  lemma IdCharsJoin(hp: string, a: string, b: string)
    requires AllRadix(hp) && AllRadix(a) && AllRadix(b)
    ensures forall i :: 0 <= i < |hp + "_" + a + b| ==> IsIdChar((hp + "_" + a + b)[i])
  {
    var full := hp + "_" + a + b;
    forall i | 0 <= i < |full|
      ensures IsIdChar(full[i])
    {
      if i < |hp| {
        assert full[i] == hp[i];
      } else if i == |hp| {
        assert full[i] == '_';
      } else if i < |hp| + 1 + |a| {
        assert full[i] == a[i - |hp| - 1];
      } else {
        assert full[i] == b[i - |hp| - 1 - |a|];
      }
    }
  }

  /** The underscore survives the cut, right after the hash digits, and the digits
      before it read back as the absolute value of the hash. */
  lemma IdStartsWithHash(name: string, lat: real, lng: real)
    ensures var r := GenerateId(name, lat, lng);
            var k := IndexOf(r, '_');
            1 <= k <= 6 && k < |r|
            && r[..k] == HashPart(name, lat, lng)
            && FromRadix(r[..k], 36) == Abs(Hash(Utf16(IdInput(name, lat, lng))))
  {
    var hp := HashPart(name, lat, lng);
    var a := MicroPart(lat);
    var b := MicroPart(lng);
    assert hp + "_" + a + b == hp + "_" + (a + b);
    CutKeepsHash(hp, a + b);
    FromRadixToRadix(Abs(Hash(Utf16(IdInput(name, lat, lng)))), 36);
  }

  /** Cutting `hp_rest` to 20 characters keeps `hp` and the underscore after it when `hp`
      is at most six characters without an underscore. */
  lemma CutKeepsHash(hp: string, rest: string)
    requires 1 <= |hp| <= 6 && '_' !in hp
    ensures var full := hp + "_" + rest;
            var r := if |full| <= 20 then full else full[..20];
            IndexOf(r, '_') == |hp| && |hp| < |r| && r[..|hp|] == hp
  {
    var full := hp + "_" + rest;
    var r := if |full| <= 20 then full else full[..20];
    assert r[..|hp|] == hp && r[|hp|] == '_';
    IndexOfFirst(r, '_', |hp|);
  }

  lemma IndexOfFirst(s: string, c: char, k: nat)
    requires k < |s| && s[k] == c && c !in s[..k]
    ensures IndexOf(s, c) == k
  {
    if k > 0 {
      assert s[1..][..k - 1] == s[..k][1..];
      IndexOfFirst(s[1..], c, k - 1);
    }
  }
}
