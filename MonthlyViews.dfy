/** The month views: the newest-first month sections of the drink list
    (the grouping in `loadDrinks`), the per-month summaries
    `getAllDrinksByMonth` and `getDrinksByMonth`, and the months the bar
    chart (`updateMonthlyChart`) and the breakdown cards
    (`updateMonthlyBreakdown`) show for the selected year. A month's label
    is a locale-formatted date, here the parameter `labelOf`. */
module MonthlyViews {

  import opened Wrappers
  import opened Text
  import opened Seqs
  import opened Sorting
  import opened Counting
  import opened Drinks
  import opened Stats
  import opened Months

  /** The month key of every record, in order. */
  function MonthKeys(s: seq<Drink>): (keys: seq<string>)
    ensures |keys| == |s|
    ensures forall i :: 0 <= i < |s| ==> keys[i] == MonthKey(s[i].stamp)
  {
    seq(|s|, i requires 0 <= i < |s| => MonthKey(s[i].stamp))
  }

  function InMonth(key: string): Drink -> bool
  {
    (d: Drink) => MonthKey(d.stamp) == key
  }

  /** The records of month `key`, in store order. */
  function MonthDrinks(s: seq<Drink>, key: string): seq<Drink>
  {
    Filter(s, InMonth(key))
  }

  lemma MonthDrinksSnoc(s: seq<Drink>, d: Drink, key: string)
    ensures MonthDrinks(s + [d], key) == MonthDrinks(s, key) + (if MonthKey(d.stamp) == key then [d] else [])
  {
    assert (s + [d])[..|s|] == s;
  }

  lemma MonthDrinksAbsent(s: seq<Drink>, key: string)
    requires key !in MonthKeys(s)
    ensures MonthDrinks(s, key) == []
  {
  }

  lemma MonthKeysSnoc(s: seq<Drink>, d: Drink)
    ensures MonthKeys(s + [d]) == MonthKeys(s) + [MonthKey(d.stamp)]
  {
  }

  // ---------------------------------------------------- the list by month

  /** A month section of the drink list: its heading and its records. */
  datatype MonthGroup = MonthGroup(key: string, monthLabel: string, drinks: seq<Drink>)

  function GroupKeys(gs: seq<MonthGroup>): (ks: seq<string>)
    ensures |ks| == |gs|
    ensures forall i :: 0 <= i < |gs| ==> ks[i] == gs[i].key
  {
    seq(|gs|, i requires 0 <= i < |gs| => gs[i].key)
  }

  /** The number of records over all sections. */
  function SumSizes(gs: seq<MonthGroup>): nat
  {
    if gs == [] then 0 else |gs[0].drinks| + SumSizes(gs[1..])
  }

  lemma SumSizesCons(g: MonthGroup, t: seq<MonthGroup>)
    ensures SumSizes([g] + t) == |g.drinks| + SumSizes(t)
  {
    assert ([g] + t)[1..] == t;
  }

  lemma GroupKeysCons(g: MonthGroup, t: seq<MonthGroup>)
    ensures GroupKeys([g] + t) == [g.key] + GroupKeys(t)
  {
  }

  /** One step of the grouping loop for a record `d` of month `key`: create
      the month's section, headed `monthLabel`, if there is none yet, then
      `drinks.push(drink)` onto it. */
  function AddToGroups(gs: seq<MonthGroup>, key: string, monthLabel: string, d: Drink): seq<MonthGroup>
  {
    if gs == [] then [MonthGroup(key, monthLabel, [d])]
    else if gs[0].key == key then [gs[0].(drinks := gs[0].drinks + [d])] + gs[1..]
    else [gs[0]] + AddToGroups(gs[1..], key, monthLabel, d)
  }

  /** The step adds the month to the keys when it is new. */
  lemma {:induction false} AddToGroupsKeys(gs: seq<MonthGroup>, key: string, monthLabel: string, d: Drink)
    ensures GroupKeys(AddToGroups(gs, key, monthLabel, d)) == if key in GroupKeys(gs) then GroupKeys(gs) else GroupKeys(gs) + [key]
  {
    if gs != [] {
      var g, t := gs[0], gs[1..];
      var r := AddToGroups(gs, key, monthLabel, d);
      assert gs == [g] + t;
      GroupKeysCons(g, t);
      if g.key == key {
        assert r == [g.(drinks := g.drinks + [d])] + t;
        GroupKeysCons(g.(drinks := g.drinks + [d]), t);
        assert GroupKeys(gs)[0] == key;
      } else {
        var rest := AddToGroups(t, key, monthLabel, d);
        assert r == [g] + rest;
        AddToGroupsKeys(t, key, monthLabel, d);
        GroupKeysCons(g, rest);
        if key in GroupKeys(t) {
          assert key in GroupKeys(gs);
          assert GroupKeys(r) == GroupKeys(gs);
        } else {
          assert key !in GroupKeys(gs);
          assert GroupKeys(r) == [g.key] + (GroupKeys(t) + [key]);
          assert GroupKeys(r) == GroupKeys(gs) + [key];
        }
      }
    }
  }

  /** The step adds one record to the sections. */
  lemma {:induction false} AddToGroupsSize(gs: seq<MonthGroup>, key: string, monthLabel: string, d: Drink)
    ensures SumSizes(AddToGroups(gs, key, monthLabel, d)) == SumSizes(gs) + 1
  {
    if gs == [] {
      SumSizesCons(MonthGroup(key, monthLabel, [d]), []);
    } else {
      var g, t := gs[0], gs[1..];
      assert gs == [g] + t;
      SumSizesCons(g, t);
      if g.key == key {
        SumSizesCons(g.(drinks := g.drinks + [d]), t);
      } else {
        AddToGroupsSize(t, key, monthLabel, d);
        SumSizesCons(g, AddToGroups(t, key, monthLabel, d));
      }
    }
  }

  /** With distinct month keys, the step pushes the record onto its own
      month's section and leaves every other section as it was. */
  lemma {:induction false} AddToGroupsAt(gs: seq<MonthGroup>, key: string, monthLabel: string, d: Drink, i: int)
    requires Distinct(GroupKeys(gs))
    requires 0 <= i < |gs|
    ensures |AddToGroups(gs, key, monthLabel, d)| > i
    ensures AddToGroups(gs, key, monthLabel, d)[i] ==
      if gs[i].key == key then gs[i].(drinks := gs[i].drinks + [d]) else gs[i]
  {
    if i > 0 {
      if gs[0].key == key {
        assert GroupKeys(gs)[0] != GroupKeys(gs)[i];
      } else {
        assert GroupKeys(gs[1..]) == GroupKeys(gs)[1..];
        AddToGroupsAt(gs[1..], key, monthLabel, d, i - 1);
      }
    }
  }

  /** A new month gets a new section at the end, holding just the record. */
  lemma {:induction false} AddToGroupsNew(gs: seq<MonthGroup>, key: string, monthLabel: string, d: Drink)
    requires key !in GroupKeys(gs)
    ensures |AddToGroups(gs, key, monthLabel, d)| == |gs| + 1
    ensures AddToGroups(gs, key, monthLabel, d)[|gs|] == MonthGroup(key, monthLabel, [d])
  {
    if gs != [] {
      assert GroupKeys(gs) == [gs[0].key] + GroupKeys(gs[1..]);
      AddToGroupsNew(gs[1..], key, monthLabel, d);
    }
  }

  /** `drinksByMonth` after the grouping loop over `s`. */
  function GroupByMonth(s: seq<Drink>, labelOf: Stamp -> string): seq<MonthGroup>
  {
    if s == [] then []
    else
      var d := s[|s| - 1];
      AddToGroups(GroupByMonth(s[..|s| - 1], labelOf), MonthKey(d.stamp), labelOf(d.stamp), d)
  }

  /** `g` is the section of its month: that month's records in store order,
      headed by the label of the first of them. */
  predicate SectionOfMonth(g: MonthGroup, s: seq<Drink>, labelOf: Stamp -> string)
  {
    && g.drinks == MonthDrinks(s, g.key)
    && g.drinks != []
    && g.monthLabel == labelOf(g.drinks[0].stamp)
  }

  /** There is one section per month that has records, in order of first
      appearance; each is that month's records in store order; together
      they hold every record once. */
  lemma {:induction false} GroupByMonthMeaning(s: seq<Drink>, labelOf: Stamp -> string)
    ensures GroupKeys(GroupByMonth(s, labelOf)) == Dedup(MonthKeys(s))
    ensures SumSizes(GroupByMonth(s, labelOf)) == |s|
    ensures forall i :: 0 <= i < |GroupByMonth(s, labelOf)| ==> SectionOfMonth(GroupByMonth(s, labelOf)[i], s, labelOf)
  {
    if s != [] {
      var init, d := s[..|s| - 1], s[|s| - 1];
      assert s == init + [d];
      GroupByMonthMeaning(init, labelOf);
      MonthKeysSnoc(init, d);
      DedupSnoc(MonthKeys(init), MonthKey(d.stamp));
      var g0, g := GroupByMonth(init, labelOf), GroupByMonth(s, labelOf);
      var key := MonthKey(d.stamp);
      AddToGroupsKeys(g0, key, labelOf(d.stamp), d);
      AddToGroupsSize(g0, key, labelOf(d.stamp), d);
      forall i | 0 <= i < |g|
        ensures SectionOfMonth(g[i], s, labelOf)
      {
        MonthDrinksSnoc(init, d, g[i].key);
        if i == |g0| {
          AddToGroupsNew(g0, key, labelOf(d.stamp), d);
          MonthDrinksAbsent(init, key);
        } else {
          AddToGroupsAt(g0, key, labelOf(d.stamp), d, i);
        }
      }
    }
  }

  function GroupFor(gs: seq<MonthGroup>, key: string): (g: MonthGroup)
    requires key in GroupKeys(gs)
    ensures g in gs && g.key == key
  {
    if gs[0].key == key then gs[0]
    else
      assert GroupKeys(gs[1..]) == GroupKeys(gs)[1..];
      GroupFor(gs[1..], key)
  }

  lemma GroupForUnique(gs: seq<MonthGroup>, g: MonthGroup)
    requires Distinct(GroupKeys(gs))
    requires g in gs
    ensures g.key in GroupKeys(gs) && GroupFor(gs, g.key) == g
  {
    var i :| 0 <= i < |gs| && gs[i] == g;
    var h := GroupFor(gs, g.key);
    var j :| 0 <= j < |gs| && gs[j] == h;
    assert GroupKeys(gs)[i] == GroupKeys(gs)[j];
  }

  /** The elements of `ks`, largest first in string order. */
  function Descending(ks: seq<string>): (r: seq<string>)
    ensures |r| == |ks|
    ensures forall x :: x in r <==> x in ks
  {
    var sorted := SortStrings(ks);
    assert |multiset(sorted)| == |multiset(ks)|;
    var r := Reverse(sorted);
    forall x
      ensures x in r <==> x in ks
    {
      assert x in sorted <==> x in multiset(sorted);
      assert x in ks <==> x in multiset(ks);
      if x in sorted {
        var k :| 0 <= k < |sorted| && sorted[k] == x;
        assert r[|sorted| - 1 - k] == x;
      }
    }
    r
  }

  lemma DescendingStrict(ks: seq<string>)
    requires Distinct(ks)
    ensures forall i, j :: 0 <= i < j < |Descending(ks)| ==> StrLess(Descending(ks)[j], Descending(ks)[i])
  {
    SortStringsDistinct(ks);
  }

  /** `Object.keys(drinksByMonth).sort().reverse()`, each key with its
      section. */
  function NewestFirst(gs: seq<MonthGroup>): seq<MonthGroup>
  {
    var keys := Descending(GroupKeys(gs));
    seq(|keys|, i requires 0 <= i < |keys| => GroupFor(gs, keys[i]))
  }

  /** The sections are those of the grouping, each once, in descending
      key order. */
  lemma NewestFirstMeaning(gs: seq<MonthGroup>)
    requires Distinct(GroupKeys(gs))
    ensures |NewestFirst(gs)| == |gs|
    ensures forall i, j :: 0 <= i < j < |NewestFirst(gs)| ==> StrLess(NewestFirst(gs)[j].key, NewestFirst(gs)[i].key)
    ensures forall g :: g in NewestFirst(gs) <==> g in gs
  {
    var keys := Descending(GroupKeys(gs));
    DescendingStrict(GroupKeys(gs));
    var r := NewestFirst(gs);
    forall g | g in gs
      ensures g in r
    {
      GroupForUnique(gs, g);
      var k :| 0 <= k < |keys| && keys[k] == g.key;
      assert r[k] == g;
    }
  }

  /** Every record is in the section of its month. */
  lemma EveryDrinkGrouped(s: seq<Drink>, labelOf: Stamp -> string)
    ensures forall d :: d in s ==> exists g :: g in GroupByMonth(s, labelOf) && d in g.drinks
  {
    var gs := GroupByMonth(s, labelOf);
    GroupByMonthMeaning(s, labelOf);
    forall d | d in s
      ensures exists g :: g in gs && d in g.drinks
    {
      var key := MonthKey(d.stamp);
      var k :| 0 <= k < |s| && s[k] == d;
      assert MonthKeys(s)[k] == key;
      assert key in Dedup(MonthKeys(s));
      assert key in GroupKeys(gs);
      var j :| 0 <= j < |gs| && GroupKeys(gs)[j] == key;
      assert SectionOfMonth(gs[j], s, labelOf);
      assert d in MonthDrinks(s, key);
    }
  }

  /** The newest-first sections of a grouping of `s`: strictly descending
      keys, each the section of its month, and every record in one of
      them. */
  lemma NewestFirstSections(s: seq<Drink>, labelOf: Stamp -> string)
    ensures forall i, j :: 0 <= i < j < |NewestFirst(GroupByMonth(s, labelOf))| ==>
      StrLess(NewestFirst(GroupByMonth(s, labelOf))[j].key, NewestFirst(GroupByMonth(s, labelOf))[i].key)
    ensures forall g :: g in NewestFirst(GroupByMonth(s, labelOf)) ==> SectionOfMonth(g, s, labelOf)
    ensures forall d :: d in s ==> exists g :: g in NewestFirst(GroupByMonth(s, labelOf)) && d in g.drinks
  {
    var gs := GroupByMonth(s, labelOf);
    GroupByMonthMeaning(s, labelOf);
    NewestFirstMeaning(gs);
    EveryDrinkGrouped(s, labelOf);
    forall g | g in gs
      ensures SectionOfMonth(g, s, labelOf)
    {
      var k :| 0 <= k < |gs| && gs[k] == g;
    }
  }

  /** What the drink list shows. */
  datatype ListView = NoDrinksYet | Sections(sections: seq<MonthGroup>)

  /** The grouping in `loadDrinks`: the empty-state message for an empty
      list, otherwise one section per month with records, newest month key
      first, each holding its month's records in store order. */
  method LoadDrinks(drinks: seq<Drink>, labelOf: Stamp -> string) returns (view: ListView)
    ensures view == NoDrinksYet <==> drinks == []
    ensures view.Sections? ==> view.sections == NewestFirst(GroupByMonth(drinks, labelOf))
    ensures view.Sections? ==>
      forall i, j :: 0 <= i < j < |view.sections| ==> StrLess(view.sections[j].key, view.sections[i].key)
    ensures view.Sections? ==>
      forall g :: g in view.sections ==> SectionOfMonth(g, drinks, labelOf)
    ensures view.Sections? ==>
      forall d :: d in drinks ==> exists g :: g in view.sections && d in g.drinks
  {
    if |drinks| == 0 {
      return NoDrinksYet;
    }
    var drinksByMonth: seq<MonthGroup> := [];
    for i := 0 to |drinks|
      invariant drinksByMonth == GroupByMonth(drinks[..i], labelOf)
    {
      assert drinks[..i + 1][..i] == drinks[..i];
      var drink := drinks[i];
      drinksByMonth := AddToGroups(drinksByMonth, MonthKey(drink.stamp), labelOf(drink.stamp), drink);
    }
    assert drinks[..|drinks|] == drinks;
    NewestFirstSections(drinks, labelOf);
    view := Sections(NewestFirst(drinksByMonth));
  }

  // ------------------------------------------------------- month summaries

  /** One entry of `monthData`: label, number of records and per-type
      counts of a month. */
  datatype MonthSummary = MonthSummary(key: string, monthLabel: string, count: nat, types: seq<(string, nat)>)

  function SummaryKeys(ms: seq<MonthSummary>): (ks: seq<string>)
    ensures |ks| == |ms|
    ensures forall i :: 0 <= i < |ms| ==> ks[i] == ms[i].key
  {
    seq(|ms|, i requires 0 <= i < |ms| => ms[i].key)
  }

  /** The sum of the months' counts. */
  function SumCounts(ms: seq<MonthSummary>): nat
  {
    if ms == [] then 0 else ms[0].count + SumCounts(ms[1..])
  }

  lemma SumCountsCons(m: MonthSummary, t: seq<MonthSummary>)
    ensures SumCounts([m] + t) == m.count + SumCounts(t)
  {
    assert ([m] + t)[1..] == t;
  }

  lemma SummaryKeysCons(m: MonthSummary, t: seq<MonthSummary>)
    ensures SummaryKeys([m] + t) == [m.key] + SummaryKeys(t)
  {
  }

  /** `count++` and `types[typeLabel] = (types[typeLabel] || 0) + 1` on an
      existing month. */
  function Counted(m: MonthSummary, typeLabel: string): MonthSummary
  {
    m.(count := m.count + 1, types := Increment(m.types, typeLabel))
  }

  /** One step of the summary loop for a record of month `key` and type
      label `typeLabel`: create the month, labelled `monthLabel` and with
      no types, if it is missing; then `count++` and increment the count of
      the type label. */
  function AddToSummaries(ms: seq<MonthSummary>, key: string, monthLabel: string, typeLabel: string): seq<MonthSummary>
  {
    if ms == [] then [MonthSummary(key, monthLabel, 1, Increment([], typeLabel))]
    else if ms[0].key == key then
      [Counted(ms[0], typeLabel)] + ms[1..]
    else [ms[0]] + AddToSummaries(ms[1..], key, monthLabel, typeLabel)
  }

  /** The step adds the month to the keys when it is new. */
  lemma {:induction false} AddToSummariesKeys(ms: seq<MonthSummary>, key: string, monthLabel: string, typeLabel: string)
    ensures SummaryKeys(AddToSummaries(ms, key, monthLabel, typeLabel)) ==
      if key in SummaryKeys(ms) then SummaryKeys(ms) else SummaryKeys(ms) + [key]
  {
    if ms != [] {
      var m, t := ms[0], ms[1..];
      var r := AddToSummaries(ms, key, monthLabel, typeLabel);
      assert ms == [m] + t;
      SummaryKeysCons(m, t);
      if m.key == key {
        assert r == [Counted(m, typeLabel)] + t;
        SummaryKeysCons(Counted(m, typeLabel), t);
        assert SummaryKeys(ms)[0] == key;
      } else {
        var rest := AddToSummaries(t, key, monthLabel, typeLabel);
        assert r == [m] + rest;
        AddToSummariesKeys(t, key, monthLabel, typeLabel);
        SummaryKeysCons(m, rest);
        if key in SummaryKeys(t) {
          assert key in SummaryKeys(ms);
          assert SummaryKeys(r) == SummaryKeys(ms);
        } else {
          assert key !in SummaryKeys(ms);
          assert SummaryKeys(r) == [m.key] + (SummaryKeys(t) + [key]);
          assert SummaryKeys(r) == SummaryKeys(ms) + [key];
        }
      }
    }
  }

  /** The step adds one to the total count. */
  lemma {:induction false} AddToSummariesCount(ms: seq<MonthSummary>, key: string, monthLabel: string, typeLabel: string)
    ensures SumCounts(AddToSummaries(ms, key, monthLabel, typeLabel)) == SumCounts(ms) + 1
  {
    if ms == [] {
      SumCountsCons(MonthSummary(key, monthLabel, 1, Increment([], typeLabel)), []);
    } else {
      var m, t := ms[0], ms[1..];
      assert ms == [m] + t;
      SumCountsCons(m, t);
      if m.key == key {
        SumCountsCons(Counted(m, typeLabel), t);
      } else {
        AddToSummariesCount(t, key, monthLabel, typeLabel);
        SumCountsCons(m, AddToSummaries(t, key, monthLabel, typeLabel));
      }
    }
  }

  /** With distinct month keys, the step counts the record in its own
      month and leaves every other month as it was. */
  lemma {:induction false} AddToSummariesAt(ms: seq<MonthSummary>, key: string, monthLabel: string, typeLabel: string, i: int)
    requires Distinct(SummaryKeys(ms))
    requires 0 <= i < |ms|
    ensures |AddToSummaries(ms, key, monthLabel, typeLabel)| > i
    ensures AddToSummaries(ms, key, monthLabel, typeLabel)[i] ==
      if ms[i].key == key
      then Counted(ms[i], typeLabel)
      else ms[i]
  {
    var r := AddToSummaries(ms, key, monthLabel, typeLabel);
    if ms[0].key == key {
      assert r == [Counted(ms[0], typeLabel)] + ms[1..];
      if i > 0 {
        assert SummaryKeys(ms)[0] != SummaryKeys(ms)[i];
        assert r[i] == ms[i];
      }
    } else {
      var rest := AddToSummaries(ms[1..], key, monthLabel, typeLabel);
      assert r == [ms[0]] + rest;
      if i > 0 {
        assert SummaryKeys(ms[1..]) == SummaryKeys(ms)[1..];
        AddToSummariesAt(ms[1..], key, monthLabel, typeLabel, i - 1);
        assert r[i] == rest[i - 1];
      }
    }
  }

  /** A new month is added at the end, counting just the record. */
  lemma {:induction false} AddToSummariesNew(ms: seq<MonthSummary>, key: string, monthLabel: string, typeLabel: string)
    requires key !in SummaryKeys(ms)
    ensures |AddToSummaries(ms, key, monthLabel, typeLabel)| == |ms| + 1
    ensures AddToSummaries(ms, key, monthLabel, typeLabel)[|ms|] == MonthSummary(key, monthLabel, 1, Increment([], typeLabel))
  {
    if ms != [] {
      assert SummaryKeys(ms) == [ms[0].key] + SummaryKeys(ms[1..]);
      AddToSummariesNew(ms[1..], key, monthLabel, typeLabel);
    }
  }

  /** `monthData` after the summary loop over `s`. */
  function MonthlyStats(s: seq<Drink>, labelOf: Stamp -> string): seq<MonthSummary>
  {
    if s == [] then []
    else
      var d := s[|s| - 1];
      AddToSummaries(MonthlyStats(s[..|s| - 1], labelOf), MonthKey(d.stamp), labelOf(d.stamp), TypeLabel(d.kind))
  }

  /** `m` summarizes its month: the label of its first record, the number of
      its records, and their per-type counts as `getDrinksByType` gives
      them. */
  predicate SummaryOfMonth(m: MonthSummary, s: seq<Drink>, labelOf: Stamp -> string)
  {
    var ds := MonthDrinks(s, m.key);
    && ds != []
    && m.monthLabel == labelOf(ds[0].stamp)
    && m.count == |ds|
    && m.types == DrinksByType(ds)
  }

  /** The summaries' keys are the months with records, in order of first
      appearance, and their counts add up to the number of records. */
  lemma {:induction false} MonthlyStatsKeys(s: seq<Drink>, labelOf: Stamp -> string)
    ensures SummaryKeys(MonthlyStats(s, labelOf)) == Dedup(MonthKeys(s))
    ensures Distinct(SummaryKeys(MonthlyStats(s, labelOf)))
    ensures SumCounts(MonthlyStats(s, labelOf)) == |s|
  {
    if s != [] {
      var init, d := s[..|s| - 1], s[|s| - 1];
      assert s == init + [d];
      MonthlyStatsKeys(init, labelOf);
      MonthKeysSnoc(init, d);
      DedupSnoc(MonthKeys(init), MonthKey(d.stamp));
      AddToSummariesKeys(MonthlyStats(init, labelOf), MonthKey(d.stamp), labelOf(d.stamp), TypeLabel(d.kind));
      AddToSummariesCount(MonthlyStats(init, labelOf), MonthKey(d.stamp), labelOf(d.stamp), TypeLabel(d.kind));
    }
  }

  /** One more record keeps every summary a summary of its month. */
  lemma SummaryStep(init: seq<Drink>, d: Drink, labelOf: Stamp -> string, i: int)
    requires forall j :: 0 <= j < |MonthlyStats(init, labelOf)| ==> SummaryOfMonth(MonthlyStats(init, labelOf)[j], init, labelOf)
    requires 0 <= i < |MonthlyStats(init + [d], labelOf)|
    ensures SummaryOfMonth(MonthlyStats(init + [d], labelOf)[i], init + [d], labelOf)
  {
    var s := init + [d];
    assert s[..|s| - 1] == init;
    MonthlyStatsKeys(init, labelOf);
    var m0, m := MonthlyStats(init, labelOf), MonthlyStats(s, labelOf);
    var key := MonthKey(d.stamp);
    AddToSummariesKeys(m0, key, labelOf(d.stamp), TypeLabel(d.kind));
    MonthDrinksSnoc(init, d, m[i].key);
    if i == |m0| {
      AddToSummariesNew(m0, key, labelOf(d.stamp), TypeLabel(d.kind));
      MonthDrinksAbsent(init, key);
      DrinksByTypeSnoc([], d);
      assert [] + [d] == [d];
    } else {
      AddToSummariesAt(m0, key, labelOf(d.stamp), TypeLabel(d.kind), i);
      if m0[i].key == key {
        DrinksByTypeSnoc(MonthDrinks(init, key), d);
      }
    }
  }

  /** Every summary summarizes its month. */
  lemma {:induction false} MonthlySummaries(s: seq<Drink>, labelOf: Stamp -> string)
    ensures forall i :: 0 <= i < |MonthlyStats(s, labelOf)| ==> SummaryOfMonth(MonthlyStats(s, labelOf)[i], s, labelOf)
  {
    if s != [] {
      var init, d := s[..|s| - 1], s[|s| - 1];
      assert s == init + [d];
      MonthlySummaries(init, labelOf);
      forall i | 0 <= i < |MonthlyStats(s, labelOf)|
        ensures SummaryOfMonth(MonthlyStats(s, labelOf)[i], s, labelOf)
      {
        SummaryStep(init, d, labelOf, i);
      }
    }
  }

  /** There is one summary per month that has records, in order of first
      appearance, each summarizing its month; the counts add up to the
      number of records. */
  lemma MonthlyStatsMeaning(s: seq<Drink>, labelOf: Stamp -> string)
    ensures SummaryKeys(MonthlyStats(s, labelOf)) == Dedup(MonthKeys(s))
    ensures Distinct(SummaryKeys(MonthlyStats(s, labelOf)))
    ensures SumCounts(MonthlyStats(s, labelOf)) == |s|
    ensures forall i :: 0 <= i < |MonthlyStats(s, labelOf)| ==> SummaryOfMonth(MonthlyStats(s, labelOf)[i], s, labelOf)
  {
    MonthlyStatsKeys(s, labelOf);
    MonthlySummaries(s, labelOf);
  }

  /** A summary of a month with records counts at least one record, and
      its per-type counts add up to its count. */
  lemma SummaryCountAddsUp(m: MonthSummary, s: seq<Drink>, labelOf: Stamp -> string)
    requires SummaryOfMonth(m, s, labelOf)
    ensures m.count == Total(m.types) && m.count >= 1
  {
    DrinksByTypeMeaning(MonthDrinks(s, m.key));
  }

  /** Each month's count is the sum of its per-type counts and at least
      one, and the months' counts add up to the number of records. */
  lemma MonthCountsAddUp(s: seq<Drink>, labelOf: Stamp -> string)
    ensures forall m :: m in MonthlyStats(s, labelOf) ==> m.count == Total(m.types) && m.count >= 1
    ensures SumCounts(MonthlyStats(s, labelOf)) == |s|
  {
    var ms := MonthlyStats(s, labelOf);
    MonthlyStatsKeys(s, labelOf);
    MonthlySummaries(s, labelOf);
    forall i | 0 <= i < |ms|
      ensures ms[i].count == Total(ms[i].types) && ms[i].count >= 1
    {
      SummaryCountAddsUp(ms[i], s, labelOf);
    }
  }

  /** `getAllDrinksByMonth`. */
  method GetAllDrinksByMonth(drinks: seq<Drink>, labelOf: Stamp -> string) returns (monthData: seq<MonthSummary>)
    ensures monthData == MonthlyStats(drinks, labelOf)
  {
    monthData := [];
    for i := 0 to |drinks|
      invariant monthData == MonthlyStats(drinks[..i], labelOf)
    {
      assert drinks[..i + 1][..i] == drinks[..i];
      var drink := drinks[i];
      monthData := AddToSummaries(monthData, MonthKey(drink.stamp), labelOf(drink.stamp), TypeLabel(drink.kind));
    }
    assert drinks[..|drinks|] == drinks;
  }

  predicate IsBoba(d: Drink)
  {
    d.kind == "boba"
  }

  /** `getDrinksByMonth`: the loop of `getAllDrinksByMonth`, run over the
      boba records only. */
  method GetDrinksByMonth(drinks: seq<Drink>, labelOf: Stamp -> string) returns (monthData: seq<MonthSummary>)
    ensures monthData == MonthlyStats(Filter(drinks, IsBoba), labelOf)
  {
    var bobaDrinks := Filter(drinks, IsBoba);
    monthData := GetAllDrinksByMonth(bobaDrinks, labelOf);
  }

  /** The boba records are as many as the boba stat card counts. */
  lemma {:induction false} BobaCount(s: seq<Drink>)
    ensures |Filter(s, IsBoba)| == CountKind(s, "boba")
  {
    if s != [] {
      BobaCount(s[..|s| - 1]);
    }
  }

  /** In the boba-only summaries every month has the single type label
      "Boba", counted as often as the month has records, and the months'
      counts add up to the number of boba records. */
  lemma BobaMonths(s: seq<Drink>, labelOf: Stamp -> string)
    ensures forall m :: m in MonthlyStats(Filter(s, IsBoba), labelOf) ==> m.types == [("Boba", m.count)]
    ensures SumCounts(MonthlyStats(Filter(s, IsBoba), labelOf)) == CountKind(s, "boba")
  {
    var b := Filter(s, IsBoba);
    var ms := MonthlyStats(b, labelOf);
    MonthlyStatsKeys(b, labelOf);
    MonthlySummaries(b, labelOf);
    BobaCount(s);
    forall i | 0 <= i < |ms|
      ensures ms[i].types == [("Boba", ms[i].count)]
    {
      BobaSummary(ms[i], b, labelOf);
    }
  }

  /** A month summary over boba records only has the one type `Boba`. */
  lemma BobaSummary(m: MonthSummary, b: seq<Drink>, labelOf: Stamp -> string)
    requires SummaryOfMonth(m, b, labelOf)
    requires forall d :: d in b ==> IsBoba(d)
    ensures m.types == [("Boba", m.count)]
  {
    BuiltInTypeLabels();
    var ds := MonthDrinks(b, m.key);
    forall k | 0 <= k < |ds|
      ensures TypeLabels(ds)[k] == "Boba"
    {
      assert ds[k] in ds;
    }
    TallyConstant(TypeLabels(ds), "Boba");
  }

  // ------------------------------------------- chart and breakdown months

  /** `parseInt(key.split('-')[0]) === selectedYear`, where the selected
      year is `None` for "All Years" (`NaN`, equal to nothing). */
  function InYear(selected: Option<int>): string -> bool
  {
    (key: string) => selected.Some? && KeyYear(key) == selected
  }

  /** For a record of a non-negative year, its month passes the year test
      exactly when the year is the one selected; with "All Years" no month
      passes. */
  lemma InYearMeaning(t: Stamp, selected: Option<int>)
    requires t.year >= 0
    ensures InYear(selected)(MonthKey(t)) <==> selected == Some(t.year)
  {
    KeyYearOfMonthKey(t);
  }

  function SummaryFor(ms: seq<MonthSummary>, key: string): (m: MonthSummary)
    requires key in SummaryKeys(ms)
    ensures m in ms && m.key == key
  {
    if ms[0].key == key then ms[0]
    else
      assert SummaryKeys(ms[1..]) == SummaryKeys(ms)[1..];
      SummaryFor(ms[1..], key)
  }

  lemma SummaryForUnique(ms: seq<MonthSummary>, m: MonthSummary)
    requires Distinct(SummaryKeys(ms))
    requires m in ms
    ensures m.key in SummaryKeys(ms) && SummaryFor(ms, m.key) == m
  {
    var i :| 0 <= i < |ms| && ms[i] == m;
    var h := SummaryFor(ms, m.key);
    var j :| 0 <= j < |ms| && ms[j] == h;
    assert SummaryKeys(ms)[i] == SummaryKeys(ms)[j];
  }

  /** A filter keeps a strictly ascending sequence strictly ascending. */
  lemma {:induction false} FilterAscending(s: seq<string>, p: string -> bool)
    requires StrictlyAscending(s)
    ensures StrictlyAscending(Filter(s, p))
  {
    if s != [] {
      var init, last := s[..|s| - 1], s[|s| - 1];
      assert StrictlyAscending(init);
      FilterAscending(init, p);
      var f := Filter(init, p);
      if p(last) {
        assert Filter(s, p) == f + [last];
        forall x | x in f
          ensures StrLess(x, last)
        {
          var k :| 0 <= k < |init| && init[k] == x;
          assert init[k] == s[k];
        }
        AscendingSnoc(f, last);
      } else {
        assert Filter(s, p) == f;
      }
    }
  }

  lemma AscendingSnoc(f: seq<string>, x: string)
    requires StrictlyAscending(f)
    requires forall y :: y in f ==> StrLess(y, x)
    ensures StrictlyAscending(f + [x])
  {
    var r := f + [x];
    forall i, j | 0 <= i < j < |r|
      ensures StrLess(r[i], r[j])
    {
      assert r[i] == f[i];
      if j < |f| {
        assert r[j] == f[j];
      } else {
        assert f[i] in f;
      }
    }
  }

  /** A filter keeps a strictly descending sequence strictly descending. */
  lemma {:induction false} FilterDescending(s: seq<string>, p: string -> bool)
    requires forall i, j :: 0 <= i < j < |s| ==> StrLess(s[j], s[i])
    ensures forall i, j :: 0 <= i < j < |Filter(s, p)| ==> StrLess(Filter(s, p)[j], Filter(s, p)[i])
  {
    if s != [] {
      var init, last := s[..|s| - 1], s[|s| - 1];
      assert forall i, j :: 0 <= i < j < |init| ==> StrLess(init[j], init[i]);
      FilterDescending(init, p);
      var f := Filter(init, p);
      if p(last) {
        assert Filter(s, p) == f + [last];
        forall x | x in f
          ensures StrLess(last, x)
        {
          var k :| 0 <= k < |init| && init[k] == x;
          assert init[k] == s[k];
        }
        DescendingSnoc(f, last);
      } else {
        assert Filter(s, p) == f;
      }
    }
  }

  lemma DescendingSnoc(f: seq<string>, x: string)
    requires forall i, j :: 0 <= i < j < |f| ==> StrLess(f[j], f[i])
    requires forall y :: y in f ==> StrLess(x, y)
    ensures forall i, j :: 0 <= i < j < |f + [x]| ==> StrLess((f + [x])[j], (f + [x])[i])
  {
    var r := f + [x];
    forall i, j | 0 <= i < j < |r|
      ensures StrLess(r[j], r[i])
    {
      assert r[i] == f[i];
      if j < |f| {
        assert r[j] == f[j];
      } else {
        assert f[i] in f;
      }
    }
  }

  /** The summaries of `keys`, in the order of `keys`. */
  function SummariesFor(ms: seq<MonthSummary>, keys: seq<string>): (r: seq<MonthSummary>)
    requires forall k :: k in keys ==> k in SummaryKeys(ms)
    ensures |r| == |keys|
    ensures forall i :: 0 <= i < |keys| ==> r[i] in ms && r[i].key == keys[i]
  {
    seq(|keys|, i requires 0 <= i < |keys| => SummaryFor(ms, keys[i]))
  }

  /** With distinct month keys, the summaries of `keys` are exactly the
      months whose keys are listed. */
  lemma SummariesForMembers(ms: seq<MonthSummary>, keys: seq<string>)
    requires Distinct(SummaryKeys(ms))
    requires forall k :: k in keys ==> k in SummaryKeys(ms)
    ensures forall m :: m in SummariesFor(ms, keys) <==> m in ms && m.key in keys
  {
    var r := SummariesFor(ms, keys);
    forall m | m in ms && m.key in keys
      ensures m in r
    {
      SummaryForUnique(ms, m);
      var k :| 0 <= k < |keys| && keys[k] == m.key;
      assert r[k] == m;
    }
  }

  /** `slice(-12)`. */
  function LastTwelve<T>(s: seq<T>): seq<T>
  {
    s[|s| - Min(12, |s|)..]
  }

  /** The month keys of the selected year, ascending. */
  function YearKeysAscending(ms: seq<MonthSummary>, selected: Option<int>): (keys: seq<string>)
    ensures forall k :: k in keys <==> k in SummaryKeys(ms) && InYear(selected)(k)
  {
    var sorted := SortStrings(SummaryKeys(ms));
    var f := Filter(sorted, InYear(selected));
    forall k
      ensures k in sorted <==> k in SummaryKeys(ms)
    {
      assert k in sorted <==> k in multiset(sorted);
    }
    f
  }

  lemma YearKeysAscendingStrict(ms: seq<MonthSummary>, selected: Option<int>)
    requires Distinct(SummaryKeys(ms))
    ensures StrictlyAscending(YearKeysAscending(ms, selected))
  {
    SortStringsDistinct(SummaryKeys(ms));
    FilterAscending(SortStrings(SummaryKeys(ms)), InYear(selected));
  }

  /** The keys `updateMonthlyChart` plots: ascending, of the selected year,
      the last twelve. */
  function ChartKeys(ms: seq<MonthSummary>, selected: Option<int>): (keys: seq<string>)
    ensures forall k :: k in keys ==> k in SummaryKeys(ms) && InYear(selected)(k)
  {
    LastTwelve(YearKeysAscending(ms, selected))
  }

  /** The last twelve of an ascending sequence are ascending, larger than
      everything left out, and all of it when it is shorter than twelve. */
  lemma LastTwelveOfAscending(f: seq<string>)
    requires StrictlyAscending(f)
    ensures |LastTwelve(f)| <= 12
    ensures StrictlyAscending(LastTwelve(f))
    ensures forall k, c :: k in f && k !in LastTwelve(f) && c in LastTwelve(f) ==> StrLess(k, c)
    ensures |LastTwelve(f)| < 12 ==> LastTwelve(f) == f
  {
    var start := |f| - Min(12, |f|);
    var keys := LastTwelve(f);
    forall k, c | k in f && k !in keys && c in keys
      ensures StrLess(k, c)
    {
      var a :| 0 <= a < |f| && f[a] == k;
      var j :| 0 <= j < |keys| && keys[j] == c;
      assert f[start + j] == c;
    }
  }

  /** The chart keys are at most twelve and ascending; the selected year's
      keys left out are smaller than every key shown, and none is left out
      when fewer than twelve are shown. */
  lemma ChartKeysMeaning(ms: seq<MonthSummary>, selected: Option<int>)
    requires Distinct(SummaryKeys(ms))
    ensures |ChartKeys(ms, selected)| <= 12
    ensures StrictlyAscending(ChartKeys(ms, selected))
    ensures forall k, c :: k in SummaryKeys(ms) && InYear(selected)(k) && k !in ChartKeys(ms, selected) && c in ChartKeys(ms, selected) ==>
      StrLess(k, c)
    ensures |ChartKeys(ms, selected)| < 12 ==>
      forall k :: k in SummaryKeys(ms) && InYear(selected)(k) ==> k in ChartKeys(ms, selected)
  {
    YearKeysAscendingStrict(ms, selected);
    LastTwelveOfAscending(YearKeysAscending(ms, selected));
  }

  /** The months behind the bars of `updateMonthlyChart`, oldest first; the
      bars' labels and lengths are their `label` and `count`. */
  function MonthlyChart(ms: seq<MonthSummary>, selected: Option<int>): seq<MonthSummary>
  {
    SummariesFor(ms, ChartKeys(ms, selected))
  }

  /** The chart's months are at most twelve, in ascending key order. */
  lemma MonthlyChartOrder(ms: seq<MonthSummary>, selected: Option<int>)
    requires Distinct(SummaryKeys(ms))
    ensures |MonthlyChart(ms, selected)| <= 12
    ensures forall i, j :: 0 <= i < j < |MonthlyChart(ms, selected)| ==>
      StrLess(MonthlyChart(ms, selected)[i].key, MonthlyChart(ms, selected)[j].key)
  {
    var keys := ChartKeys(ms, selected);
    ChartKeysMeaning(ms, selected);
    var chart := SummariesFor(ms, keys);
    forall i, j | 0 <= i < j < |chart|
      ensures StrLess(chart[i].key, chart[j].key)
    {
      assert chart[i].key == keys[i] && chart[j].key == keys[j];
    }
  }

  /** The chart's months are months of the selected year. */
  lemma MonthlyChartShown(ms: seq<MonthSummary>, selected: Option<int>)
    ensures forall m :: m in MonthlyChart(ms, selected) ==> m in ms && InYear(selected)(m.key)
  {
    var keys := ChartKeys(ms, selected);
    var chart := SummariesFor(ms, keys);
    forall m | m in chart
      ensures m in ms && InYear(selected)(m.key)
    {
      var i :| 0 <= i < |chart| && chart[i] == m;
      assert keys[i] in keys;
    }
  }

  /** The months of the selected year the chart leaves out have smaller
      keys than those it shows, and it leaves none out when it shows fewer
      than twelve. */
  lemma MonthlyChartLeftOut(ms: seq<MonthSummary>, selected: Option<int>)
    requires Distinct(SummaryKeys(ms))
    ensures forall m, c :: m in ms && InYear(selected)(m.key) && m !in MonthlyChart(ms, selected) && c in MonthlyChart(ms, selected) ==>
      StrLess(m.key, c.key)
    ensures |MonthlyChart(ms, selected)| < 12 ==>
      forall m :: m in ms && InYear(selected)(m.key) ==> m in MonthlyChart(ms, selected)
  {
    var keys := ChartKeys(ms, selected);
    ChartKeysMeaning(ms, selected);
    SummariesForMembers(ms, keys);
    forall m | m in ms
      ensures m.key in SummaryKeys(ms)
    {
      var k :| 0 <= k < |ms| && ms[k] == m;
      assert SummaryKeys(ms)[k] == m.key;
    }
  }

  /** The chart shows at most twelve months of the selected year, in
      ascending key order; the months of that year it leaves out all have
      smaller keys than those it shows, and it leaves none out when it
      shows fewer than twelve. With "All Years" it shows nothing. */
  lemma MonthlyChartMeaning(ms: seq<MonthSummary>, selected: Option<int>)
    requires Distinct(SummaryKeys(ms))
    ensures |MonthlyChart(ms, selected)| <= 12
    ensures forall i, j :: 0 <= i < j < |MonthlyChart(ms, selected)| ==>
      StrLess(MonthlyChart(ms, selected)[i].key, MonthlyChart(ms, selected)[j].key)
    ensures forall m :: m in MonthlyChart(ms, selected) ==> m in ms && InYear(selected)(m.key)
    ensures forall m, c :: m in ms && InYear(selected)(m.key) && m !in MonthlyChart(ms, selected) && c in MonthlyChart(ms, selected) ==>
      StrLess(m.key, c.key)
    ensures |MonthlyChart(ms, selected)| < 12 ==>
      forall m :: m in ms && InYear(selected)(m.key) ==> m in MonthlyChart(ms, selected)
    ensures selected.None? ==> MonthlyChart(ms, selected) == []
  {
    MonthlyChartOrder(ms, selected);
    MonthlyChartShown(ms, selected);
    MonthlyChartLeftOut(ms, selected);
    var chart := MonthlyChart(ms, selected);
    if selected.None? {
      assert forall m :: m !in chart;
    }
  }

  /** The selected year's month keys, largest first. */
  function BreakdownKeys(ms: seq<MonthSummary>, selected: Option<int>): (keys: seq<string>)
    ensures forall k :: k in keys <==> k in SummaryKeys(ms) && InYear(selected)(k)
  {
    Filter(Descending(SummaryKeys(ms)), InYear(selected))
  }

  lemma BreakdownKeysStrict(ms: seq<MonthSummary>, selected: Option<int>)
    requires Distinct(SummaryKeys(ms))
    ensures forall i, j :: 0 <= i < j < |BreakdownKeys(ms, selected)| ==>
      StrLess(BreakdownKeys(ms, selected)[j], BreakdownKeys(ms, selected)[i])
  {
    DescendingStrict(SummaryKeys(ms));
    FilterDescending(Descending(SummaryKeys(ms)), InYear(selected));
  }

  /** What the breakdown shows. */
  datatype Breakdown = NoMonthlyData | NoDataForYear | MonthCards(cards: seq<MonthSummary>)

  /** The cards of `updateMonthlyBreakdown`: no data at all, no data for
      the selected year, or the selected year's months newest key first. */
  function MonthlyBreakdown(ms: seq<MonthSummary>, selected: Option<int>): Breakdown
  {
    if ms == [] then NoMonthlyData
    else
      var keys := BreakdownKeys(ms, selected);
      if keys == [] then NoDataForYear else MonthCards(SummariesFor(ms, keys))
  }

  /** The first empty state is shown exactly when there are no months, the
      second exactly when there are months but none of the selected year,
      which is always the case with "All Years". */
  lemma MonthlyBreakdownEmpty(ms: seq<MonthSummary>, selected: Option<int>)
    ensures MonthlyBreakdown(ms, selected) == NoMonthlyData <==> ms == []
    ensures MonthlyBreakdown(ms, selected) == NoDataForYear <==>
      ms != [] && forall m :: m in ms ==> !InYear(selected)(m.key)
    ensures selected.None? && ms != [] ==> MonthlyBreakdown(ms, selected) == NoDataForYear
  {
    if ms != [] {
      var keys := BreakdownKeys(ms, selected);
      forall m | m in ms
        ensures m.key in SummaryKeys(ms)
      {
        var k :| 0 <= k < |ms| && ms[k] == m;
        assert SummaryKeys(ms)[k] == m.key;
      }
      if keys != [] {
        assert keys[0] in keys;
      } else if selected.Some? {
        assert forall k :: k in SummaryKeys(ms) ==> !InYear(selected)(k);
      }
    }
  }

  /** The cards are exactly the selected year's months, in descending key
      order. */
  lemma MonthlyBreakdownCards(ms: seq<MonthSummary>, selected: Option<int>)
    requires Distinct(SummaryKeys(ms))
    ensures MonthlyBreakdown(ms, selected).MonthCards? ==>
      var cards := MonthlyBreakdown(ms, selected).cards;
      && (forall i, j :: 0 <= i < j < |cards| ==> StrLess(cards[j].key, cards[i].key))
      && (forall m :: m in cards <==> m in ms && InYear(selected)(m.key))
  {
    if ms != [] && BreakdownKeys(ms, selected) != [] {
      var keys := BreakdownKeys(ms, selected);
      BreakdownKeysStrict(ms, selected);
      SummariesForMembers(ms, keys);
      var cards := SummariesFor(ms, keys);
      forall i, j | 0 <= i < j < |cards|
        ensures StrLess(cards[j].key, cards[i].key)
      {
        assert cards[i].key == keys[i] && cards[j].key == keys[j];
      }
      forall m | m in ms && InYear(selected)(m.key)
        ensures m.key in keys
      {
        var k :| 0 <= k < |ms| && ms[k] == m;
        assert SummaryKeys(ms)[k] == m.key;
      }
    }
  }

  /** The first empty state is shown exactly when there are no months, the
      second exactly when there are months but none of the selected year
      (always, with "All Years"); otherwise the cards are exactly the
      selected year's months, in descending key order. */
  lemma MonthlyBreakdownMeaning(ms: seq<MonthSummary>, selected: Option<int>)
    requires Distinct(SummaryKeys(ms))
    ensures MonthlyBreakdown(ms, selected) == NoMonthlyData <==> ms == []
    ensures MonthlyBreakdown(ms, selected) == NoDataForYear <==>
      ms != [] && forall m :: m in ms ==> !InYear(selected)(m.key)
    ensures selected.None? && ms != [] ==> MonthlyBreakdown(ms, selected) == NoDataForYear
    ensures MonthlyBreakdown(ms, selected).MonthCards? ==>
      var cards := MonthlyBreakdown(ms, selected).cards;
      && (forall i, j :: 0 <= i < j < |cards| ==> StrLess(cards[j].key, cards[i].key))
      && (forall m :: m in cards <==> m in ms && InYear(selected)(m.key))
  {
    MonthlyBreakdownEmpty(ms, selected);
    MonthlyBreakdownCards(ms, selected);
  }

  /** With "All Years" selected the year filter keeps every record, yet the
      chart shows no month and the breakdown, when there are records, says
      there is no data for the year. */
  lemma AllYearsShowsNoMonths(drinks: seq<Drink>, labelOf: Stamp -> string)
    ensures FilterByYear(drinks, None) == drinks
    ensures MonthlyChart(MonthlyStats(Filter(drinks, IsBoba), labelOf), None) == []
    ensures drinks != [] ==> MonthlyBreakdown(MonthlyStats(drinks, labelOf), None) == NoDataForYear
  {
    MonthlyStatsMeaning(Filter(drinks, IsBoba), labelOf);
    MonthlyChartMeaning(MonthlyStats(Filter(drinks, IsBoba), labelOf), None);
    MonthlyStatsMeaning(drinks, labelOf);
    MonthlyBreakdownMeaning(MonthlyStats(drinks, labelOf), None);
    if drinks != [] {
      assert MonthKeys(drinks)[0] in Dedup(MonthKeys(drinks));
    }
  }
}
