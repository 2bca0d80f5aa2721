/**
 * The pure reporting in `main`: three frequency tallies (by category, by halal
 * status, by city with `'Unknown'` for a record without one) and the two
 * exported lists `cities` and `categories`.
 */
module Summary {
  import opened Wrappers
  import opened Place
  import opened Ordering

  /** The label a record without a city is counted under. */
  const NoCity: string := "Unknown"

  /** `acc[k] = (acc[k] || 0) + 1`. */
  function Bump(acc: map<string, nat>, k: string): map<string, nat> {
    acc[k := (if k in acc then acc[k] else 0) + 1]
  }

  /** `keys.reduce((acc, k) => { acc[k] = (acc[k] || 0) + 1; return acc; }, acc)`. */
  function TallyFrom(acc: map<string, nat>, keys: seq<string>): map<string, nat>
    decreases |keys|
  {
    if |keys| == 0 then acc else TallyFrom(Bump(acc, keys[0]), keys[1..])
  }

  /** A tally started from `{}`: it holds exactly the keys that occur, each with its
      number of occurrences. */
  function Tally(keys: seq<string>): (t: map<string, nat>)
    ensures forall k :: k in t <==> k in keys
    ensures forall k :: k in t ==> t[k] == multiset(keys)[k]
  {
    TallyFromCounts(map[], keys);
    TallyFrom(map[], keys)
  }

  /** Folding onto an accumulator adds each key's number of occurrences to it. */
  lemma {:induction false} TallyFromCounts(acc: map<string, nat>, keys: seq<string>)
    ensures forall k :: k in TallyFrom(acc, keys) <==> k in acc || k in keys
    ensures forall k :: k in TallyFrom(acc, keys) ==>
              TallyFrom(acc, keys)[k] == (if k in acc then acc[k] else 0) + multiset(keys)[k]
    decreases |keys|
  {
    if |keys| > 0 {
      var acc' := Bump(acc, keys[0]);
      TallyFromCounts(acc', keys[1..]);
      assert keys == [keys[0]] + keys[1..];
      assert multiset(keys) == multiset{keys[0]} + multiset(keys[1..]);
      forall k
        ensures k in keys <==> k == keys[0] || k in keys[1..]
      {
      }
    }
  }

  /** The three breakdowns `main` logs. */
  datatype Breakdown = ByCategory | ByStatus | ByCity

  /** The key a record is counted under: its category literal, its status literal, or
      `r.city || 'Unknown'` (a missing or empty city counts as `'Unknown'`). */
  function Key(b: Breakdown, r: Restaurant): string {
    match b
    case ByCategory => CategoryName(r.category)
    case ByStatus => StatusName(r.halalStatus)
    case ByCity =>
      match r.city
      case Some(c) => if c == "" then NoCity else c
      case None => NoCity
  }

  /** The keys of the records, in order. */
  function Keys(b: Breakdown, rs: seq<Restaurant>): (ks: seq<string>)
    ensures |ks| == |rs|
    decreases |rs|
  {
    if |rs| == 0 then [] else [Key(b, rs[0])] + Keys(b, rs[1..])
  }

  /** `categoryCount`, `statusCount` and `cityCount`. */
  function Count(b: Breakdown, rs: seq<Restaurant>): map<string, nat> {
    Tally(Keys(b, rs))
  }

  /** The number of records with a given key, counted directly. */
  function CountWhere(b: Breakdown, rs: seq<Restaurant>, k: string): (n: nat)
    ensures n <= |rs|
    decreases |rs|
  {
    if |rs| == 0 then 0 else (if Key(b, rs[0]) == k then 1 else 0) + CountWhere(b, rs[1..], k)
  }

  lemma {:induction false} KeysHold(b: Breakdown, rs: seq<Restaurant>, k: string)
    ensures multiset(Keys(b, rs))[k] == CountWhere(b, rs, k)
    ensures k in Keys(b, rs) <==> exists r :: r in rs && Key(b, r) == k
    decreases |rs|
  {
    if |rs| > 0 {
      KeysHold(b, rs[1..], k);
      assert multiset(Keys(b, rs)) == multiset{Key(b, rs[0])} + multiset(Keys(b, rs[1..]));
      assert rs == [rs[0]] + rs[1..];
      forall r
        ensures r in rs <==> r == rs[0] || r in rs[1..]
      {
      }
    }
  }

  /** Each tally holds exactly the keys of the records, each with the number of records
      that have it. */
  lemma CountIsCount(b: Breakdown, rs: seq<Restaurant>, k: string)
    ensures k in Count(b, rs) <==> exists r :: r in rs && Key(b, r) == k
    ensures k in Count(b, rs) ==> Count(b, rs)[k] == CountWhere(b, rs, k)
  {
    KeysHold(b, rs, k);
  }

  /** The category tally has one entry per category in use, counting its records, and
      nothing else: its keys are category literals. */
  lemma CategoryCountKeys(rs: seq<Restaurant>, k: string)
    requires k in Count(ByCategory, rs)
    ensures CategoryFromName(k).Some?
    ensures exists r :: r in rs && r.category == CategoryFromName(k).value
  {
    CountIsCount(ByCategory, rs, k);
    var r :| r in rs && Key(ByCategory, r) == k;
    CategoryNameRoundTrip(r.category);
  }

  /** The same for the status tally. */
  lemma StatusCountKeys(rs: seq<Restaurant>, k: string)
    requires k in Count(ByStatus, rs)
    ensures StatusFromName(k).Some?
    ensures exists r :: r in rs && r.halalStatus == StatusFromName(k).value
  {
    CountIsCount(ByStatus, rs, k);
    var r :| r in rs && Key(ByStatus, r) == k;
    StatusNameRoundTrip(r.halalStatus);
  }

  /** Records without a city are counted under `'Unknown'`, together with any record whose
      city is that literal. */
  lemma CityKeyUnknown(r: Restaurant)
    ensures Key(ByCity, r) != ""
    ensures Key(ByCity, r) == NoCity <==> r.city.None? || r.city.value == "" || r.city.value == NoCity
  {
  }

  /** The cities of the records, without the missing or empty ones (`filter(Boolean)`). */
  function CityValues(rs: seq<Restaurant>): (cs: seq<string>)
    ensures forall c :: c in cs <==> c != "" && exists r :: r in rs && r.city == Some(c)
    decreases |rs|
  {
    if |rs| == 0 then []
    else
      var rest := CityValues(rs[1..]);
      assert forall r :: r in rs <==> r == rs[0] || r in rs[1..] by {
        assert rs == [rs[0]] + rs[1..];
      }
      match rs[0].city
      case Some(c) => if c == "" then rest else [c] + rest
      case None => rest
  }

  /** The `cities` export: every non-empty city of a record once, in code-unit order. */
  function CityList(rs: seq<Restaurant>): (r: seq<string>)
    ensures StrictlySorted(r)
    ensures forall c :: c in r <==> c != "" && exists x :: x in rs && x.city == Some(c)
  {
    SortedSet(CityValues(rs))
  }

  /** The `categories` export: the literal of every category in use once, in code-unit
      order. */
  function CategoryList(rs: seq<Restaurant>): (r: seq<string>)
    ensures StrictlySorted(r)
    ensures forall k :: k in r <==> exists x :: x in rs && CategoryName(x.category) == k
  {
    var ks := Keys(ByCategory, rs);
    assert forall k :: k in ks <==> exists x :: x in rs && CategoryName(x.category) == k by {
      forall k
        ensures k in ks <==> exists x :: x in rs && CategoryName(x.category) == k
      {
        KeysHold(ByCategory, rs, k);
      }
    }
    SortedSet(ks)
  }

  /** The exported lists are the only strictly sorted lists of their strings: any list
      that is strictly sorted and holds exactly the cities in use is `cities`. */
  lemma CitiesUnique(rs: seq<Restaurant>, other: seq<string>)
    requires StrictlySorted(other)
    requires forall c :: c in other <==> c != "" && exists x :: x in rs && x.city == Some(c)
    ensures other == CityList(rs)
  {
    SortedUnique(other, CityList(rs));
  }

  /** The exports depend only on which records occur, not on their order or repeats. */
  lemma ListsIgnoreOrder(rs: seq<Restaurant>, ts: seq<Restaurant>)
    requires forall x :: x in rs <==> x in ts
    ensures CityList(rs) == CityList(ts)
    ensures CategoryList(rs) == CategoryList(ts)
  {
    SortedUnique(CityList(rs), CityList(ts));
    SortedUnique(CategoryList(rs), CategoryList(ts));
  }
}
