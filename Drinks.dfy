/** Drink records and the two edits the tracker makes to its stored list,
    `addDrink` and `deleteDrink`, with the `localStorage` round trip
    (`getDrinks`/`saveDrinks`) replaced by an explicit list argument and
    result; and `filterDrinksByYear`. */
module Drinks {

  import opened Wrappers
  import opened Text
  import opened Seqs

  type MonthNumber = m: int | 1 <= m <= 12 witness 1

  /** What the tracker reads from a record's timestamp: the calendar year
      (`getFullYear()`) and month (`getMonth() + 1`) in local time. */
  datatype Stamp = Stamp(year: int, month: MonthNumber)

  /** A stored record; `kind` is its `type`. The source tests `place`,
      `item`, `brand`, `flavor` and the legacy `size` for truthiness, so
      each is optional here, `None` standing for `null` or a missing field. */
  datatype Drink = Drink(
    id: int,
    kind: string,
    stamp: Stamp,
    place: Option<string>,
    item: Option<string>,
    brand: Option<string>,
    flavor: Option<string>,
    size: Option<string>)

  const EnergyDrink: string := "energy-drink"

  /** JavaScript truthiness of an optional string. */
  predicate Truthy(v: Option<string>)
  {
    v.Some? && v.value != []
  }

  /** `v ? v.trim() : v`. */
  function TrimmedField(v: Option<string>): Option<string>
  {
    if Truthy(v) then Some(Trim(v.value)) else v
  }

  /** `place ? toTitleCase(place.trim()) : place`. */
  function NormalizedPlace(v: Option<string>): Option<string>
  {
    if Truthy(v) then Some(TitleCase(Trim(v.value))) else v
  }

  /** The record `addDrink` builds; `id` is the clock reading `Date.now()`
      and `now` the calendar month of `new Date()`. An energy drink keeps
      brand and flavor, any other type place and item. */
  function NewDrink(id: int, now: Stamp, kind: string, place: Option<string>, item: Option<string>,
                    brand: Option<string>, flavor: Option<string>): (d: Drink)
    ensures d.id == id && d.kind == kind && d.stamp == now && d.size == None
    ensures kind == EnergyDrink ==>
      d.place == None && d.item == None && d.brand == TrimmedField(brand) && d.flavor == TrimmedField(flavor)
    ensures kind != EnergyDrink ==>
      d.brand == None && d.flavor == None && d.place == NormalizedPlace(place) && d.item == TrimmedField(item)
  {
    if kind == EnergyDrink then
      Drink(id, kind, now, None, None, TrimmedField(brand), TrimmedField(flavor), None)
    else
      Drink(id, kind, now, NormalizedPlace(place), TrimmedField(item), None, None, None)
  }

  /** Every text field of a new record is already in the form the tracker
      normalizes to: trimmed, and for the place also title-cased, so
      normalizing it again changes nothing. */
  lemma NewDrinkNormalized(id: int, now: Stamp, kind: string, place: Option<string>, item: Option<string>,
                           brand: Option<string>, flavor: Option<string>)
    ensures var d := NewDrink(id, now, kind, place, item, brand, flavor);
      && (d.place.Some? && Truthy(place) ==>
            IsTrimmed(d.place.value) && TitleCase(Trim(d.place.value)) == d.place.value)
      && (d.item.Some? && Truthy(item) ==> Trim(d.item.value) == d.item.value)
      && (d.brand.Some? && Truthy(brand) ==> Trim(d.brand.value) == d.brand.value)
      && (d.flavor.Some? && Truthy(flavor) ==> Trim(d.flavor.value) == d.flavor.value)
  {
    var d := NewDrink(id, now, kind, place, item, brand, flavor);
    if d.place.Some? && Truthy(place) {
      var t := Trim(place.value);
      TitleCaseTrimmed(t);
      TrimTrimmed(TitleCase(t));
      TitleCaseIdempotent(t);
    }
    if d.item.Some? && Truthy(item) {
      TrimTrimmed(Trim(item.value));
    }
    if d.brand.Some? && Truthy(brand) {
      TrimTrimmed(Trim(brand.value));
    }
    if d.flavor.Some? && Truthy(flavor) {
      TrimTrimmed(Trim(flavor.value));
    }
  }

  /** `addDrink` without storage and rendering: the new record goes in
      front of the stored list (`unshift`), which is otherwise unchanged. */
  function AddDrink(drinks: seq<Drink>, id: int, now: Stamp, kind: string, place: Option<string>,
                    item: Option<string>, brand: Option<string>, flavor: Option<string>): (r: seq<Drink>)
    ensures |r| == |drinks| + 1
    ensures r[0] == NewDrink(id, now, kind, place, item, brand, flavor)
    ensures r[1..] == drinks
  {
    [NewDrink(id, now, kind, place, item, brand, flavor)] + drinks
  }

  /** `deleteDrink` without storage and rendering: keeps exactly the records
      whose id differs, in their order, and changes nothing when no record
      has that id. */
  function DeleteDrink(drinks: seq<Drink>, id: int): (r: seq<Drink>)
    ensures forall d :: d in r <==> d in drinks && d.id != id
    ensures forall d :: multiset(r)[d] == if d.id != id then multiset(drinks)[d] else 0
    ensures IsSubsequence(r, drinks)
    ensures (forall i :: 0 <= i < |drinks| ==> drinks[i].id != id) ==> r == drinks
  {
    Filter(drinks, (d: Drink) => d.id != id)
  }

  /** `filterDrinksByYear`. `None` is the empty selection ("All Years") and
      keeps the list as it is; a year keeps exactly the records of that
      year, in their order. */
  function FilterByYear(drinks: seq<Drink>, year: Option<int>): (r: seq<Drink>)
    ensures year.None? ==> r == drinks
    ensures year.Some? ==> forall d :: d in r <==> d in drinks && d.stamp.year == year.value
    ensures year.Some? ==>
      forall d :: multiset(r)[d] == if d.stamp.year == year.value then multiset(drinks)[d] else 0
    ensures IsSubsequence(r, drinks)
  {
    match year
    case None =>
      SubsequenceReflexive(drinks);
      drinks
    case Some(y) => Filter(drinks, (d: Drink) => d.stamp.year == y)
  }
}
