/** The aggregations behind the statistics page and the autocomplete lists:
    the five stat-card counts of `updateStats`, `getDrinksByType`,
    `getPlacesVisited`, `getMostVisitedPlace`, `getTopPlaces`,
    `getUniquePlaces`/`Items`/`Brands`/`Flavors` and `getAvailableYears`.
    Each `forEach` accumulation is a method with a loop, proved equal to a
    function that says what it accumulates; the lemmas then say what that
    function means. */
module Stats {

  import opened Wrappers
  import opened Text
  import opened Seqs
  import opened Sorting
  import opened Counting
  import opened Drinks

  // --------------------------------------------------------- stat cards

  /** The five counters of the stat cards. */
  datatype StatCounts = StatCounts(boba: nat, coffee: nat, matcha: nat, energyDrink: nat, other: nat)

  /** The number of records of type `k`. */
  function CountKind(s: seq<Drink>, k: string): nat
  {
    if s == [] then 0
    else CountKind(s[..|s| - 1], k) + (if s[|s| - 1].kind == k then 1 else 0)
  }

  /** The types with a card of their own besides `other`. */
  predicate HasOwnCard(k: string)
  {
    k == "boba" || k == "coffee" || k == "matcha" || k == EnergyDrink
  }

  /** The number of records the `other` card counts: type `other` and every
      type without a card of its own (`tea` among them). */
  function CountOtherCard(s: seq<Drink>): nat
  {
    if s == [] then 0
    else CountOtherCard(s[..|s| - 1]) + (if HasOwnCard(s[|s| - 1].kind) then 0 else 1)
  }

  /** The counting loop of `updateStats`: each card counts its own type,
      `other` everything else, and every record lands on exactly one card. */
  method CountStatCards(drinks: seq<Drink>) returns (c: StatCounts)
    ensures c.boba == CountKind(drinks, "boba")
    ensures c.coffee == CountKind(drinks, "coffee")
    ensures c.matcha == CountKind(drinks, "matcha")
    ensures c.energyDrink == CountKind(drinks, EnergyDrink)
    ensures c.other == CountOtherCard(drinks)
    ensures c.boba + c.coffee + c.matcha + c.energyDrink + c.other == |drinks|
  {
    c := StatCounts(0, 0, 0, 0, 0);
    for i := 0 to |drinks|
      invariant c.boba == CountKind(drinks[..i], "boba")
      invariant c.coffee == CountKind(drinks[..i], "coffee")
      invariant c.matcha == CountKind(drinks[..i], "matcha")
      invariant c.energyDrink == CountKind(drinks[..i], EnergyDrink)
      invariant c.other == CountOtherCard(drinks[..i])
      invariant c.boba + c.coffee + c.matcha + c.energyDrink + c.other == i
    {
      assert drinks[..i + 1][..i] == drinks[..i];
      var kind := drinks[i].kind;
      if kind == "boba" {
        c := c.(boba := c.boba + 1);
      } else if kind == "coffee" {
        c := c.(coffee := c.coffee + 1);
      } else if kind == "matcha" {
        c := c.(matcha := c.matcha + 1);
      } else if kind == EnergyDrink {
        c := c.(energyDrink := c.energyDrink + 1);
      } else {
        // `other` itself and every type without an own card
        c := c.(other := c.other + 1);
      }
    }
    assert drinks[..|drinks|] == drinks;
  }

  // ------------------------------------------------------ drinks by type

  /** The label a type is counted and shown under. */
  function TypeLabel(kind: string): string
  {
    if kind == EnergyDrink then "Energy Drink" else Capitalize(kind)
  }

  /** `energy-drink` reads "Energy Drink"; any other type differs from its
      label only in the case of its first letter. */
  lemma TypeLabelFacts(kind: string)
    ensures kind == EnergyDrink ==> TypeLabel(kind) == "Energy Drink"
    ensures kind != EnergyDrink ==>
      && |TypeLabel(kind)| == |kind|
      && (kind != [] ==> TypeLabel(kind)[1..] == kind[1..])
      && ToLower(TypeLabel(kind)) == ToLower(kind)
  {
    CapitalizeIdempotent(kind);
  }

  /** The built-in types read as their capitalized names. */
  lemma BuiltInTypeLabels()
    ensures TypeLabel("boba") == "Boba" && TypeLabel("coffee") == "Coffee"
    ensures TypeLabel("matcha") == "Matcha" && TypeLabel("tea") == "Tea"
    ensures TypeLabel("other") == "Other"
  {
    TypeLabelFacts("boba");
    TypeLabelFacts("coffee");
    TypeLabelFacts("matcha");
    TypeLabelFacts("tea");
    TypeLabelFacts("other");
  }

  /** The label of every record, in order. */
  function TypeLabels(s: seq<Drink>): (labels: seq<string>)
    ensures |labels| == |s|
    ensures forall i :: 0 <= i < |s| ==> labels[i] == TypeLabel(s[i].kind)
  {
    seq(|s|, i requires 0 <= i < |s| => TypeLabel(s[i].kind))
  }


  /** `getDrinksByType`: every label in order of first appearance, with the
      number of records carrying it. */
  function DrinksByType(s: seq<Drink>): seq<(string, nat)>
  {
    Tally(TypeLabels(s))
  }

  /** `getDrinksByType`, the loop itself. */
  method GetDrinksByType(drinks: seq<Drink>) returns (counts: seq<(string, nat)>)
    ensures counts == DrinksByType(drinks)
  {
    counts := [];
    for i := 0 to |drinks|
      invariant counts == DrinksByType(drinks[..i])
    {
      var kind := drinks[i].kind;
      var typeLabel := if kind == EnergyDrink then "Energy Drink" else Capitalize(kind);
      assert drinks[..i + 1] == drinks[..i] + [drinks[i]];
      DrinksByTypeSnoc(drinks[..i], drinks[i]);
      counts := Increment(counts, typeLabel);
    }
    assert drinks[..|drinks|] == drinks;
  }

  /** The chart's labels are the distinct labels of the records, in order of
      first appearance; each count is the number of records with that label;
      the counts add up to the number of records. */
  lemma DrinksByTypeMeaning(s: seq<Drink>)
    ensures Keys(DrinksByType(s)) == Dedup(TypeLabels(s))
    ensures Distinct(Keys(DrinksByType(s)))
    ensures forall l :: CountOf(DrinksByType(s), l) == multiset(TypeLabels(s))[l]
    ensures AllPositive(DrinksByType(s))
    ensures Total(DrinksByType(s)) == |s|
  {
    TallyKeys(TypeLabels(s));
    TallyCounts(TypeLabels(s));
  }

  /** One more record raises the count of its own label by one and no other. */
  lemma DrinksByTypeStep(s: seq<Drink>, d: Drink)
    ensures forall l ::
      CountOf(DrinksByType(s + [d]), l) == CountOf(DrinksByType(s), l) + (if l == TypeLabel(d.kind) then 1 else 0)
  {
    DrinksByTypeSnoc(s, d);
  }

  lemma DrinksByTypeSnoc(s: seq<Drink>, d: Drink)
    ensures DrinksByType(s + [d]) == Increment(DrinksByType(s), TypeLabel(d.kind))
  {
    assert TypeLabels(s + [d]) == TypeLabels(s) + [TypeLabel(d.kind)];
    TallySnoc(TypeLabels(s), TypeLabel(d.kind));
  }

  // ------------------------------------------------------- places visited

  /** A record counts as a visit when it has a place and is not an energy
      drink. */
  predicate CountsAsVisit(d: Drink)
  {
    Truthy(d.place) && d.kind != EnergyDrink
  }

  /** The key a place is counted under: `toTitleCase(place.trim())`. */
  function PlaceKey(place: string): string
  {
    TitleCase(Trim(place))
  }

  /** The place key of every visit, in order. */
  function VisitKeys(s: seq<Drink>): seq<string>
  {
    if s == [] then []
    else
      VisitKeys(s[..|s| - 1]) + VisitKeysOf(s[|s| - 1])
  }

  /** What one more record adds to the visit keys. */
  function VisitKeysOf(d: Drink): seq<string>
  {
    if CountsAsVisit(d) then [PlaceKey(d.place.value)] else []
  }

  lemma VisitKeysSnoc(s: seq<Drink>, d: Drink)
    ensures VisitKeys(s + [d]) == VisitKeys(s) + VisitKeysOf(d)
  {
    assert (s + [d])[..|s|] == s;
  }

  /** `getPlacesVisited`: every place key in order of first appearance, with
      the number of visits under it. */
  function PlacesVisited(s: seq<Drink>): seq<(string, nat)>
  {
    Tally(VisitKeys(s))
  }

  /** `getPlacesVisited`, the loop itself. */
  method GetPlacesVisited(drinks: seq<Drink>) returns (counts: seq<(string, nat)>)
    ensures counts == PlacesVisited(drinks)
  {
    counts := [];
    for i := 0 to |drinks|
      invariant counts == Tally(VisitKeys(drinks[..i]))
    {
      var drink := drinks[i];
      assert drinks[..i + 1] == drinks[..i] + [drink];
      VisitKeysSnoc(drinks[..i], drink);
      if Truthy(drink.place) && drink.kind != EnergyDrink {
        var normalizedPlace := TitleCase(Trim(drink.place.value));
        TallySnoc(VisitKeys(drinks[..i]), normalizedPlace);
        counts := Increment(counts, normalizedPlace);
      } else {
        assert VisitKeys(drinks[..i]) + [] == VisitKeys(drinks[..i]);
      }
    }
    assert drinks[..|drinks|] == drinks;
  }

  /** `d` is a visit whose place normalizes to `k`. */
  predicate VisitUnder(d: Drink, k: string)
  {
    CountsAsVisit(d) && PlaceKey(d.place.value) == k
  }

  /** There is one place key per visit. */
  lemma {:induction false} VisitKeysCount(s: seq<Drink>)
    ensures |VisitKeys(s)| == |Filter(s, CountsAsVisit)|
  {
    if s != [] {
      VisitKeysCount(s[..|s| - 1]);
    }
  }

  /** A key occurs exactly when some visit has a place that normalizes to
      it. */
  lemma {:induction false} VisitKeysMembers(s: seq<Drink>)
    ensures forall k :: k in VisitKeys(s) <==> exists d :: d in s && VisitUnder(d, k)
  {
    if s != [] {
      var init, last := s[..|s| - 1], s[|s| - 1];
      VisitKeysMembers(init);
      assert s == init + [last];
      VisitKeysSnoc(init, last);
      forall k | k in VisitKeys(s)
        ensures exists d :: d in s && VisitUnder(d, k)
      {
        if k in VisitKeys(init) {
          var d :| d in init && VisitUnder(d, k);
          assert d in s;
        } else {
          assert last in s && VisitUnder(last, k);
        }
      }
      forall k | exists d :: d in s && VisitUnder(d, k)
        ensures k in VisitKeys(s)
      {
        var d :| d in s && VisitUnder(d, k);
        if d != last {
          assert d in init;
        }
      }
    }
  }

  /** The places are the distinct place keys of the visits, each counted as
      often as it is visited; no count is zero, and the counts add up to
      the number of visits. */
  lemma PlacesVisitedMeaning(s: seq<Drink>)
    ensures Distinct(Keys(PlacesVisited(s)))
    ensures forall k :: k in Keys(PlacesVisited(s)) <==> exists d :: d in s && VisitUnder(d, k)
    ensures forall k :: CountOf(PlacesVisited(s), k) == multiset(VisitKeys(s))[k]
    ensures AllPositive(PlacesVisited(s))
    ensures Total(PlacesVisited(s)) == |Filter(s, CountsAsVisit)|
  {
    TallyKeys(VisitKeys(s));
    TallyCounts(VisitKeys(s));
    VisitKeysCount(s);
    VisitKeysMembers(s);
  }

  predicate IsEnergyDrink(d: Drink)
  {
    d.kind == EnergyDrink
  }

  /** Energy drinks are not visits: removing every energy drink from the
      list leaves the place counts as they were. */
  lemma {:induction false} EnergyDrinksIgnored(s: seq<Drink>)
    ensures PlacesVisited(Filter(s, (d: Drink) => !IsEnergyDrink(d))) == PlacesVisited(s)
  {
    VisitKeysWithoutEnergyDrinks(s);
  }

  lemma {:induction false} VisitKeysWithoutEnergyDrinks(s: seq<Drink>)
    ensures VisitKeys(Filter(s, (d: Drink) => !IsEnergyDrink(d))) == VisitKeys(s)
  {
    if s != [] {
      var init, last := s[..|s| - 1], s[|s| - 1];
      VisitKeysWithoutEnergyDrinks(init);
      var f := Filter(init, (d: Drink) => !IsEnergyDrink(d));
      if !IsEnergyDrink(last) {
        assert (f + [last])[..|f|] == f;
      }
    }
  }

  /** Two places share a count exactly when they agree once trimmed and
      lower-cased: spelling differences in case and surrounding whitespace
      collapse, and nothing else does. */
  lemma PlaceKeySameIffSameLower(a: string, b: string)
    ensures PlaceKey(a) == PlaceKey(b) <==> ToLower(Trim(a)) == ToLower(Trim(b))
  {
    TitleCaseSameIffSameLower(Trim(a), Trim(b));
  }

  // ------------------------------------------------- most visited place

  /** `getMostVisitedPlace`: `None` (the source's `null`) when no record is
      a visit; otherwise the first place, in order of first appearance,
      among those with the largest count, with that count. */
  method GetMostVisitedPlace(drinks: seq<Drink>) returns (r: Option<(string, nat)>)
    ensures r.None? <==> PlacesVisited(drinks) == []
    ensures r.None? <==> forall d :: d in drinks ==> !CountsAsVisit(d)
    ensures r.Some? ==> exists i :: IsFirstMaximum(PlacesVisited(drinks), i) && PlacesVisited(drinks)[i] == r.value
  {
    var placeCounts := GetPlacesVisited(drinks);
    NoVisitsIffNoPlaces(drinks);
    if |placeCounts| == 0 {
      return None;
    }
    assert placeCounts[0].1 >= 1 by {
      TallyTotal(VisitKeys(drinks));
    }
    var mostVisited, maxCount := FindMostVisited(placeCounts);
    r := Some((mostVisited.value, maxCount));
  }

  /** The scan of `getMostVisitedPlace`: a strict `>` against a running
      maximum that starts at 0 and a place that starts as `null`. The place
      stays `null` only when every count is 0; otherwise it is the first
      entry with the largest count. */
  method FindMostVisited(placeCounts: seq<(string, nat)>) returns (mostVisited: Option<string>, maxCount: nat)
    ensures mostVisited.None? <==> forall j :: 0 <= j < |placeCounts| ==> placeCounts[j].1 == 0
    ensures mostVisited.Some? ==> exists i :: IsFirstMaximum(placeCounts, i) && placeCounts[i] == (mostVisited.value, maxCount)
  {
    maxCount := 0;
    mostVisited := None;
    ghost var best := 0;
    for i := 0 to |placeCounts|
      invariant mostVisited.None? ==> maxCount == 0 && best == 0
      invariant mostVisited.Some? ==> 0 <= best < i && mostVisited == Some(placeCounts[best].0) && maxCount == placeCounts[best].1 >= 1
      invariant forall j :: 0 <= j < i ==> placeCounts[j].1 <= maxCount
      invariant forall j :: 0 <= j < best ==> placeCounts[j].1 < maxCount
    {
      var (place, count) := placeCounts[i];
      if count > maxCount {
        maxCount := count;
        mostVisited := Some(place);
        best := i;
      }
    }
    if mostVisited.Some? {
      assert IsFirstMaximum(placeCounts, best);
    }
  }

  lemma NoVisitsIffNoPlaces(s: seq<Drink>)
    ensures PlacesVisited(s) == [] <==> forall d :: d in s ==> !CountsAsVisit(d)
  {
    PlacesVisitedMeaning(s);
    if PlacesVisited(s) != [] {
      assert Keys(PlacesVisited(s))[0] in Keys(PlacesVisited(s));
    } else {
      forall d | d in s
        ensures !CountsAsVisit(d)
      {
      }
    }
  }

  // ----------------------------------------------------------- top places

  function Min(a: int, b: int): int
  {
    if a <= b then a else b
  }

  /** `WithCount` of a prefix is a prefix of `WithCount` of the whole. */
  lemma {:induction false} WithCountPrefix<K>(s: seq<(K, nat)>, n: nat, c: nat)
    requires n <= |s|
    ensures WithCount(s[..n], c) <= WithCount(s, c)
  {
    if n > 0 {
      assert s[..n][1..] == s[1..][..n - 1];
      WithCountPrefix(s[1..], n - 1, c);
    }
  }

  /** `getTopPlaces(drinks, limit)`: the `limit` most visited places (all
      of them when there are fewer), largest count first. */
  function TopPlaces(drinks: seq<Drink>, limit: nat): (top: seq<(string, nat)>)
    ensures |top| == Min(limit, |PlacesVisited(drinks)|)
    ensures CountsNonIncreasing(top)
    ensures forall e :: e in top ==> e in PlacesVisited(drinks)
    ensures forall e, j :: e in PlacesVisited(drinks) && e !in top && 0 <= j < |top| ==> e.1 <= top[j].1
    ensures forall c :: WithCount(top, c) <= WithCount(PlacesVisited(drinks), c)
  {
    var places := PlacesVisited(drinks);
    var sorted := SortByCountDescending(places);
    var n := Min(limit, |sorted|);
    assert |sorted| == |places| by {
      assert |multiset(sorted)| == |multiset(places)|;
    }
    TopPlacesFacts(places, sorted, n);
    sorted[..n]
  }

  lemma TopPlacesFacts(places: seq<(string, nat)>, sorted: seq<(string, nat)>, n: nat)
    requires CountsNonIncreasing(sorted)
    requires multiset(sorted) == multiset(places)
    requires forall c :: WithCount(sorted, c) == WithCount(places, c)
    requires n <= |sorted|
    ensures forall e :: e in sorted[..n] ==> e in places
    ensures forall e, j :: e in places && e !in sorted[..n] && 0 <= j < n ==> e.1 <= sorted[j].1
    ensures forall c :: WithCount(sorted[..n], c) <= WithCount(places, c)
  {
    forall e | e in sorted[..n]
      ensures e in places
    {
      assert e in multiset(sorted);
    }
    forall e, j | e in places && e !in sorted[..n] && 0 <= j < n
      ensures e.1 <= sorted[j].1
    {
      assert e in multiset(sorted);
      var k :| 0 <= k < |sorted| && sorted[k] == e;
    }
    forall c
      ensures WithCount(sorted[..n], c) <= WithCount(places, c)
    {
      WithCountPrefix(sorted, n, c);
    }
  }

  // ---------------------------------------------------- autocomplete lists

  /** The normalized place of every record that has one, energy drinks
      included. */
  function PlaceNames(s: seq<Drink>): seq<string>
  {
    if s == [] then []
    else
      var last := s[|s| - 1];
      PlaceNames(s[..|s| - 1]) + (if Truthy(last.place) then [PlaceKey(last.place.value)] else [])
  }

  function Values<K, V>(m: seq<(K, V)>): (vs: seq<V>)
    ensures |vs| == |m|
    ensures forall i :: 0 <= i < |m| ==> vs[i] == m[i].1
  {
    seq(|m|, i requires 0 <= i < |m| => m[i].1)
  }

  /** A normalized place is a title-case fixed point. */
  lemma PlaceKeyNormal(place: string)
    ensures TitleCase(PlaceKey(place)) == PlaceKey(place)
  {
    TitleCaseIdempotent(Trim(place));
  }

  /** Two title-case fixed points with the same lower-case form are equal. */
  lemma SameLowerNormal(a: string, b: string)
    requires TitleCase(a) == a && TitleCase(b) == b
    requires ToLower(a) == ToLower(b)
    ensures a == b
  {
    TitleCaseSameIffSameLower(a, b);
  }

  /** `getUniquePlaces`: the normalized places of all records, one per
      spelling up to case, in ascending order. */
  method GetUniquePlaces(drinks: seq<Drink>) returns (places: seq<string>)
    ensures StrictlyAscending(places)
    ensures forall p :: p in places <==> p in PlaceNames(drinks)
    ensures forall a, b :: a in places && b in places && ToLower(a) == ToLower(b) ==> a == b
  {
    var placesMap: seq<(string, string)> := [];
    for i := 0 to |drinks|
      invariant Distinct(Keys(placesMap))
      invariant forall j :: 0 <= j < |placesMap| ==>
        placesMap[j].0 == ToLower(placesMap[j].1) && TitleCase(placesMap[j].1) == placesMap[j].1
      invariant forall v :: v in Values(placesMap) <==> v in PlaceNames(drinks[..i])
    {
      assert drinks[..i + 1][..i] == drinks[..i];
      if Truthy(drinks[i].place) {
        var normalizedPlace := TitleCase(Trim(drinks[i].place.value));
        PlaceKeyNormal(drinks[i].place.value);
        var old_map := placesMap;
        placesMap := Put(placesMap, ToLower(normalizedPlace), normalizedPlace);
        PutKeepsValues(old_map, placesMap, normalizedPlace);
      } else {
        assert PlaceNames(drinks[..i + 1]) == PlaceNames(drinks[..i]);
      }
    }
    assert drinks[..|drinks|] == drinks;
    places := SortStrings(Values(placesMap));
    SortedPlaceValues(placesMap);
  }

  /** Sorting the values of a map keyed by the values' lower-case forms
      gives them strictly ascending, one per spelling up to case. */
  lemma SortedPlaceValues(m: seq<(string, string)>)
    requires Distinct(Keys(m))
    requires forall j :: 0 <= j < |m| ==> m[j].0 == ToLower(m[j].1)
    ensures StrictlyAscending(SortStrings(Values(m)))
    ensures forall p :: p in SortStrings(Values(m)) <==> p in Values(m)
    ensures forall a, b :: a in SortStrings(Values(m)) && b in SortStrings(Values(m)) && ToLower(a) == ToLower(b) ==> a == b
  {
    var values := Values(m);
    ValuesDistinct(m);
    SortStringsDistinct(values);
    forall a, b | a in values && b in values && ToLower(a) == ToLower(b)
      ensures a == b
    {
      var ia :| 0 <= ia < |values| && values[ia] == a;
      var ib :| 0 <= ib < |values| && values[ib] == b;
      assert Keys(m)[ia] == Keys(m)[ib];
    }
  }

  /** `Put` of a title-case fixed point under its lower-case form, into a
      map keyed that way, adds that value and loses no other. */
  lemma PutKeepsValues(m: seq<(string, string)>, r: seq<(string, string)>, v: string)
    requires forall j :: 0 <= j < |m| ==> m[j].0 == ToLower(m[j].1) && TitleCase(m[j].1) == m[j].1
    requires TitleCase(v) == v
    requires r == Put(m, ToLower(v), v)
    ensures Distinct(Keys(m)) ==> Distinct(Keys(r))
    ensures forall j :: 0 <= j < |r| ==> r[j].0 == ToLower(r[j].1) && TitleCase(r[j].1) == r[j].1
    ensures forall w :: w in Values(r) <==> w in Values(m) || w == v
  {
    PutAddsValue(m, r, v);
  }

  lemma PutAddsValue(m: seq<(string, string)>, r: seq<(string, string)>, v: string)
    requires forall j :: 0 <= j < |m| ==> m[j].0 == ToLower(m[j].1) && TitleCase(m[j].1) == m[j].1
    requires TitleCase(v) == v
    requires r == Put(m, ToLower(v), v)
    ensures forall w :: w in Values(r) <==> w in Values(m) || w == v
  {
    forall w | w in Values(m)
      ensures w in Values(r)
    {
      var j :| 0 <= j < |m| && Values(m)[j] == w;
      if m[j].0 == ToLower(v) {
        SameLowerNormal(w, v);
      }
      assert Values(r)[j] == w;
    }
    if ToLower(v) in Keys(m) {
      var j :| 0 <= j < |m| && Keys(m)[j] == ToLower(v);
      assert Values(r)[j] == v;
    } else {
      assert Values(r)[|m|] == v;
    }
  }

  /** With distinct keys that are the values' lower-case forms, the values
      are distinct too. */
  lemma ValuesDistinct(m: seq<(string, string)>)
    requires Distinct(Keys(m))
    requires forall j :: 0 <= j < |m| ==> m[j].0 == ToLower(m[j].1)
    ensures Distinct(Values(m))
  {
    forall i, j | 0 <= i < j < |m|
      ensures Values(m)[i] != Values(m)[j]
    {
      assert Keys(m)[i] != Keys(m)[j];
    }
  }

  /** The free-text fields `getUniqueItems`, `getUniqueBrands` and
      `getUniqueFlavors` collect. */
  datatype TextField = ItemField | BrandField | FlavorField

  function FieldOf(d: Drink, f: TextField): Option<string>
  {
    match f
    case ItemField => d.item
    case BrandField => d.brand
    case FlavorField => d.flavor
  }

  /** The trimmed value of field `f` of every record where it is set. */
  function TrimmedValues(s: seq<Drink>, f: TextField): seq<string>
  {
    if s == [] then []
    else
      var v := FieldOf(s[|s| - 1], f);
      TrimmedValues(s[..|s| - 1], f) + (if Truthy(v) then [Trim(v.value)] else [])
  }

  /** The shared body of `getUniqueItems`, `getUniqueBrands` and
      `getUniqueFlavors`: a `Set` of trimmed values, then sorted. */
  method GetUniqueValues(drinks: seq<Drink>, f: TextField) returns (values: seq<string>)
    ensures StrictlyAscending(values)
    ensures forall v :: v in values <==> v in TrimmedValues(drinks, f)
  {
    var seen: seq<string> := [];
    for i := 0 to |drinks|
      invariant seen == Dedup(TrimmedValues(drinks[..i], f))
    {
      assert drinks[..i + 1][..i] == drinks[..i];
      assert TrimmedValues(drinks[..i + 1], f) ==
        TrimmedValues(drinks[..i], f) + (if Truthy(FieldOf(drinks[i], f)) then [Trim(FieldOf(drinks[i], f).value)] else []);
      var v := FieldOf(drinks[i], f);
      if Truthy(v) {
        var t := Trim(v.value);
        DedupSnoc(TrimmedValues(drinks[..i], f), t);
        if t !in seen {
          seen := seen + [t];
        }
      } else {
        assert TrimmedValues(drinks[..i + 1], f) == TrimmedValues(drinks[..i], f);
      }
    }
    assert drinks[..|drinks|] == drinks;
    values := SortStrings(seen);
    SortStringsDistinct(seen);
  }

  method GetUniqueItems(drinks: seq<Drink>) returns (items: seq<string>)
    ensures StrictlyAscending(items)
    ensures forall v :: v in items <==> v in TrimmedValues(drinks, ItemField)
  {
    items := GetUniqueValues(drinks, ItemField);
  }

  method GetUniqueBrands(drinks: seq<Drink>) returns (brands: seq<string>)
    ensures StrictlyAscending(brands)
    ensures forall v :: v in brands <==> v in TrimmedValues(drinks, BrandField)
  {
    brands := GetUniqueValues(drinks, BrandField);
  }

  method GetUniqueFlavors(drinks: seq<Drink>) returns (flavors: seq<string>)
    ensures StrictlyAscending(flavors)
    ensures forall v :: v in flavors <==> v in TrimmedValues(drinks, FlavorField)
  {
    flavors := GetUniqueValues(drinks, FlavorField);
  }

  /** A value is listed exactly when some record has it, up to surrounding
      whitespace. */
  lemma {:induction false} TrimmedValuesMeaning(s: seq<Drink>, f: TextField)
    ensures forall v :: v in TrimmedValues(s, f) <==>
      exists d :: d in s && Truthy(FieldOf(d, f)) && Trim(FieldOf(d, f).value) == v
  {
    if s != [] {
      var init, last := s[..|s| - 1], s[|s| - 1];
      TrimmedValuesMeaning(init, f);
      assert s == init + [last];
      forall v | exists d :: d in s && Truthy(FieldOf(d, f)) && Trim(FieldOf(d, f).value) == v
        ensures v in TrimmedValues(s, f)
      {
        var d :| d in s && Truthy(FieldOf(d, f)) && Trim(FieldOf(d, f).value) == v;
        if d != last {
          assert d in init;
        }
      }
      forall v | v in TrimmedValues(s, f)
        ensures exists d :: d in s && Truthy(FieldOf(d, f)) && Trim(FieldOf(d, f).value) == v
      {
        if v in TrimmedValues(init, f) {
          var d :| d in init && Truthy(FieldOf(d, f)) && Trim(FieldOf(d, f).value) == v;
          assert d in s;
        } else {
          assert last in s;
        }
      }
    }
  }

  // ------------------------------------------------------ available years

  function Years(s: seq<Drink>): (years: seq<int>)
    ensures |years| == |s|
    ensures forall i :: 0 <= i < |s| ==> years[i] == s[i].stamp.year
  {
    seq(|s|, i requires 0 <= i < |s| => s[i].stamp.year)
  }

  /** `getAvailableYears`: every year some record falls in, once, newest
      first. */
  method GetAvailableYears(drinks: seq<Drink>) returns (years: seq<int>)
    ensures StrictlyDescending(years)
    ensures forall y :: y in years <==> exists d :: d in drinks && d.stamp.year == y
  {
    var seen: seq<int> := [];
    for i := 0 to |drinks|
      invariant seen == Dedup(Years(drinks[..i]))
    {
      var year := drinks[i].stamp.year;
      assert Years(drinks[..i + 1]) == Years(drinks[..i]) + [year];
      DedupSnoc(Years(drinks[..i]), year);
      if year !in seen {
        seen := seen + [year];
      }
    }
    assert drinks[..|drinks|] == drinks;
    years := SortDescending(seen);
    SortDescendingDistinct(seen);
    forall y | exists d :: d in drinks && d.stamp.year == y
      ensures y in Years(drinks)
    {
      var d :| d in drinks && d.stamp.year == y;
      var k :| 0 <= k < |drinks| && drinks[k] == d;
      assert Years(drinks)[k] == y;
    }
  }
}
