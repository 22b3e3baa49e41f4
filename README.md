# Drink tracker aggregation core, in Dafny

This project models the logic of `app.js`, a browser drink log, that turns
a flat, newest-first list of drink records into views:

- the stat-card counts of `updateStats`;
- the per-type counts of `getDrinksByType`;
- the place counts of `getPlacesVisited`, the most visited place and the
  top places;
- the autocomplete lists `getUniquePlaces`, `getUniqueItems`,
  `getUniqueBrands` and `getUniqueFlavors`;
- the available years and the year filter;
- the month sections of the drink list built in `loadDrinks`;
- the per-month summaries `getDrinksByMonth` and `getAllDrinksByMonth`;
- the months that the monthly bar chart and the breakdown cards pick for
  the selected year.

It also models the text normalisers these depend on (`toTitleCase`,
`capitalize`, `trim`) and the two edits the store makes to its list
(`addDrink`, `deleteDrink`). Storage is replaced by an explicit list
argument and result.

Modules:

- `Wrappers`: `Option`.
- `Text`: ASCII case mapping, `split(' ')`/`join(' ')`, `capitalize`,
  `toTitleCase`, `trim`, decimal digits, `parseInt` of a leading digit run,
  and the default string order.
- `Seqs`: `filter`, `reverse`, and the first-occurrence order of a `Set`.
- `Sorting`: insertion sorts standing for `sort()`,
  `sort((a, b) => b - a)` and the stable `sort((a, b) => b.count - a.count)`.
- `Counting`: insertion-ordered association lists for the objects and
  `Map`s the code fills with `counts[k] = (counts[k] || 0) + 1` and
  `map.set(k, v)`.
- `Drinks`: the record, `addDrink`, `deleteDrink` and `filterDrinksByYear`.
- `Stats`: the statistics and the autocomplete lists.
- `Months`: month keys `YYYY-MM` and reading the year back with
  `parseInt(key.split('-')[0])`.
- `MonthlyViews`: the list sections, the month summaries, the chart and
  the breakdown.

Each `forEach` accumulation is a `method` with a loop. Its postcondition
ties the result to a function that folds the same step over the list. The
lemmas then state what that function means: which keys appear, in which
order, and how counts relate to the records. A record's timestamp is
abstracted to its calendar `(year, month)`. The locale-formatted month
label is a parameter `labelOf`. The year selector's value is an
`Option<int>`: `None` is "All Years" (the empty string, which `parseInt`
turns into `NaN`).

The model states one behaviour of the code as written rather than as it
may have been meant: `MonthlyViews.AllYearsShowsNoMonths`. With "All
Years" selected, `filterDrinksByYear` keeps every record. Yet no month key
passes `parseInt(...) === NaN`, so the bar chart is empty, and the
breakdown reports "No data for this year" whenever there are records.

## Model

| member | source | states |
|---|---|---|
| Text.ToLowerFacts | app.js:189 | `toLowerCase` leaves no upper-case letter, changes no character that is not one, keeps each character's upper-case form, and is idempotent |
| Text.JoinSplit | app.js:189-191 | splitting on single spaces and joining with single spaces gives the string back, empty words included |
| Text.Capitalize | app.js:195-198 | same length, first character upper-cased, every other character unchanged; the empty string stays empty |
| Text.CapitalizeIdempotent | app.js:195-198 | capitalizing twice is capitalizing once, and capitalizing does not change the lower-cased text |
| Text.TitleCase | app.js:188-192 | same length; a character that starts a space-separated word is upper-cased, every other character is lower-cased |
| Text.TitleCaseWordStarts | app.js:188-192 | the word starts of the lower-cased string are those of the input |
| Text.TitleCaseKeepsSpacing | app.js:188-192 | spaces and other whitespace stay exactly where they were |
| Text.TitleCaseIdempotent | app.js:188-192 | title-casing twice is title-casing once |
| Text.TitleCaseLower | app.js:188-192 | title-casing does not change the lower-cased text |
| Text.TitleCaseSameIffSameLower | app.js:188-192 | two strings title-case alike exactly when they lower-case alike |
| Text.Trim | app.js:208 | the result has no leading or trailing whitespace and is the input with only whitespace removed from its two ends |
| Text.TrimTrimmed | app.js:163-168 | trimming a trimmed string changes nothing |
| Text.TitleCaseTrimmed | app.js:167 | title-casing a trimmed string leaves it trimmed |
| Text.DigitsRoundTrip | app.js:774 | `parseInt` of `String(n)` is `n` for every natural number |
| Text.StrLessTotal | app.js:213 | the default string order is total and asymmetric |
| Text.StrLessTransitive | app.js:213 | the default string order is transitive |
| Seqs.Filter | app.js:308 | `filter` keeps exactly the elements that pass, each as often as before, in their order; it changes nothing when all pass |
| Seqs.Dedup | app.js:233-239 | a `Set` holds each element once, exactly the elements added |
| Seqs.DedupFirstOccurrence | app.js:233-239 | a `Set` iterates its elements in the order of their first occurrences in the list they were added from |
| Seqs.DedupSnoc | app.js:235 | `set.add(x)` appends `x` when it is new and changes nothing otherwise |
| Seqs.DistinctPermutation | app.js:239 | sorting a list without repeats gives one without repeats |
| Sorting.SortStrings | app.js:213 | `sort()` returns a permutation in non-decreasing string order |
| Sorting.SortStringsDistinct | app.js:213 | sorting distinct strings gives a strictly ascending list of the same strings |
| Sorting.SortDescending | app.js:437 | `sort((a, b) => b - a)` returns a permutation in non-increasing order |
| Sorting.SortDescendingDistinct | app.js:437 | sorting distinct years gives a strictly descending list of the same years |
| Sorting.SortByCountDescending | app.js:604-606 | the stable count sort is a permutation, non-increasing by count, and keeps the original order among equal counts |
| Counting.Increment | app.js:538 | `counts[k] = (counts[k] \|\| 0) + 1` raises the count of `k` by one and no other, appends a new `k` to the keys, and adds one to the total |
| Counting.TallySnoc | app.js:535-539 | one more loop step increments the count of its key |
| Counting.TallyKeys | app.js:535-539 | the keys of the filled object are the distinct keys in order of first occurrence |
| Counting.TallyCounts | app.js:535-539 | each count is the number of occurrences of its key, every count is positive, and the counts sum to the number of keys counted |
| Counting.TallyConstant | app.js:644-663 | counting one key over and over gives that key alone, with the number of times it was counted |
| Counting.Put | app.js:209 | `map.set(k, v)` replaces the value under `k` in place, appends a new `k`, and leaves every other entry as it was |
| Drinks.NewDrink | app.js:155-169 | the record built has the given id, type and timestamp; an energy drink keeps trimmed brand and flavor and has no place or item; any other type keeps the title-cased trimmed place and the trimmed item and has no brand or flavor |
| Drinks.NewDrinkNormalized | app.js:162-169 | every text field of a new record is already normalized, so normalizing it again changes nothing |
| Drinks.AddDrink | app.js:153-171 | the list grows by one, the new record first and the old list unchanged behind it |
| Drinks.DeleteDrink | app.js:306-309 | keeps exactly the records whose id differs, in order, and changes nothing when the id is absent |
| Drinks.FilterByYear | app.js:441-447 | "All Years" keeps the list unchanged; a year keeps exactly the records of that year, in order |
| Stats.CountStatCards | app.js:497-512 | each card counts its own type, `other` counts every type without a card of its own, and the five counts sum to the number of records |
| Stats.TypeLabelFacts | app.js:535-537 | `energy-drink` is labelled "Energy Drink"; any other type differs from its label only in the case of its first letter |
| Stats.BuiltInTypeLabels | app.js:535-537 | boba, coffee, matcha, tea and other are labelled Boba, Coffee, Matcha, Tea and Other |
| Stats.GetDrinksByType | app.js:532-542 | the loop leaves the per-label counts of the records, in order of first appearance |
| Stats.DrinksByTypeMeaning | app.js:532-542 | the labels are the distinct labels of the records, each counted as often as it occurs, every count positive, the counts summing to the number of records |
| Stats.DrinksByTypeStep | app.js:536-538 | one more record adds one to the count of its own label and to no other |
| Stats.GetPlacesVisited | app.js:545-557 | the loop leaves the per-place counts of the visits, in order of first appearance |
| Stats.VisitKeysCount | app.js:548-554 | one place key is counted per record that has a place and is not an energy drink |
| Stats.VisitKeysMembers | app.js:548-554 | a place key occurs exactly when some visit's place normalizes to it |
| Stats.PlacesVisitedMeaning | app.js:545-557 | the keys are distinct and are exactly the normalized places of the visits, each count is the number of visits under it, and the counts sum to the number of visits |
| Stats.EnergyDrinksIgnored | app.js:550 | removing the energy-drink records does not change the place counts |
| Stats.PlaceKeySameIffSameLower | app.js:551 | two places share a key exactly when they agree after trimming and lower-casing |
| Stats.GetMostVisitedPlace | app.js:560-579 | null exactly when no record counts as a visit; otherwise the entry with the largest count, the first in key order among ties |
| Stats.FindMostVisited | app.js:568-576 | the strict `>` scan from 0 finds no place exactly when every count is 0; otherwise the first entry with the largest count, with that count |
| Stats.NoVisitsIffNoPlaces | app.js:563-565 | there are no place keys exactly when no record counts as a visit |
| Stats.TopPlaces | app.js:600-610 | `min(limit, places)` entries, counts non-increasing, each an entry of the place counts, none left out with a higher count than one kept, and places of equal count kept in their original order |
| Stats.GetUniquePlaces | app.js:201-214 | strictly ascending, exactly the title-cased trimmed places, case variants collapsed to one entry |
| Stats.PutKeepsValues | app.js:209 | storing a title-cased place under its lower-cased key keeps the keys distinct and each key the lower case of its value, and adds the place to the values |
| Stats.ValuesDistinct | app.js:213 | values stored under distinct lower-cased keys are distinct |
| Stats.SortedPlaceValues | app.js:213 | sorting the values of the place map gives a strictly ascending list of exactly those values, with no two differing only in case |
| Stats.GetUniqueValues | app.js:229-240 | strictly ascending, exactly the trimmed non-empty values of the field |
| Stats.GetUniqueItems | app.js:229-240 | strictly ascending, exactly the trimmed items present |
| Stats.GetUniqueBrands | app.js:255-266 | strictly ascending, exactly the trimmed brands present |
| Stats.GetUniqueFlavors | app.js:281-292 | strictly ascending, exactly the trimmed flavors present |
| Stats.TrimmedValuesMeaning | app.js:233-239 | a value is collected exactly when some record's field is non-empty and trims to it |
| Stats.GetAvailableYears | app.js:431-438 | strictly descending, exactly the years that occur |
| Months.BeforeDash | app.js:774 | `split('-')[0]` is a prefix without `-`, followed by `-` when it is not the whole key |
| Months.KeyYearOfMonthKey | app.js:774 | reading the year back from a month key gives the year for every year from 0 on, and `NaN` for negative years |
| Months.MonthTextOrder | app.js:328 | for zero-padded months, string order is month order |
| Months.MonthKeyChronological | app.js:341-342 | for four-digit years, string order on month keys is chronological order |
| Months.MonthKeyInjective | app.js:328 | different months of non-negative years have different keys |
| MonthlyViews.AddToGroupsKeys | app.js:331-338 | a grouping step appends the month to the keys when it is new and leaves the keys as they were otherwise |
| MonthlyViews.AddToGroupsSize | app.js:331-338 | a grouping step adds exactly one record to the sections |
| MonthlyViews.AddToGroupsAt | app.js:331-338 | a grouping step pushes the record onto its own month's section and leaves every other section as it was |
| MonthlyViews.AddToGroupsNew | app.js:331-338 | a new month gets a new last section that holds just the record, under the record's month label |
| MonthlyViews.GroupByMonthMeaning | app.js:324-339 | one section per month with records, in order of first appearance, each holding its month's records in store order under the label of its first record; the sizes sum to the number of records |
| MonthlyViews.DescendingStrict | app.js:342 | `sort().reverse()` of distinct keys is strictly descending |
| MonthlyViews.NewestFirstMeaning | app.js:342 | the sections in newest-first order are the same sections, each once, with keys strictly descending |
| MonthlyViews.EveryDrinkGrouped | app.js:326-339 | every record is in some section |
| MonthlyViews.NewestFirstSections | app.js:324-342 | the sections shown have strictly descending keys, each is its month's section, and together they hold every record |
| MonthlyViews.LoadDrinks | app.js:314-342 | the empty state exactly for an empty list; otherwise the newest-first month sections with the properties above |
| MonthlyViews.AddToSummariesKeys | app.js:651-663 | a summary step appends the month to the keys when it is new and leaves the keys as they were otherwise |
| MonthlyViews.AddToSummariesCount | app.js:651-663 | a summary step adds exactly one to the months' total count |
| MonthlyViews.AddToSummariesAt | app.js:651-663 | a summary step counts the record in its own month and type and leaves every other month as it was |
| MonthlyViews.AddToSummariesNew | app.js:651-663 | a new month starts with the record's label, a count of one and that one type |
| MonthlyViews.MonthlyStatsKeys | app.js:673-691 | the summaries' keys are the months with records, in order of first appearance, and their counts sum to the number of records |
| MonthlyViews.SummaryStep | app.js:673-691 | one more record keeps every month's summary a summary of that month |
| MonthlyViews.MonthlySummaries | app.js:673-691 | every summary has its month's first record's label, the number of its records and their per-type counts as `getDrinksByType` gives them |
| MonthlyViews.MonthlyStatsMeaning | app.js:670-694 | one summary per month with records; each has its first record's label, the number of its records and their per-type counts as `getDrinksByType` gives them |
| MonthlyViews.MonthCountsAddUp | app.js:670-694 | each month's count is at least one and equals the sum of its per-type counts; the months' counts sum to the number of records |
| MonthlyViews.GetAllDrinksByMonth | app.js:670-694 | the loop leaves the per-month summaries of all records |
| MonthlyViews.GetDrinksByMonth | app.js:640-667 | filtering the boba records and running the month-summary loop over them gives the per-month summaries of the boba records |
| MonthlyViews.BobaCount | app.js:644 | the boba records are as many as the boba stat card counts |
| MonthlyViews.BobaMonths | app.js:640-667 | in the boba-only summaries each month's only type is Boba, with the month's count; the counts sum to the boba stat card's count |
| MonthlyViews.InYearMeaning | app.js:773-776 | a month of a non-negative year passes the year test exactly when that year is selected; with "All Years" none passes |
| MonthlyViews.FilterAscending | app.js:773-776 | filtering an ascending key list keeps it ascending |
| MonthlyViews.FilterDescending | app.js:852-855 | filtering a descending key list keeps it descending |
| MonthlyViews.SummariesForMembers | app.js:779-780 | looking up a list of keys gives exactly the months with those keys |
| MonthlyViews.YearKeysAscending | app.js:770-776 | the sorted, filtered keys are exactly the selected year's month keys |
| MonthlyViews.LastTwelveOfAscending | app.js:779 | `slice(-12)` of an ascending list is at most twelve ascending keys, larger than every key left out, and the whole list when it is shorter than twelve |
| MonthlyViews.ChartKeysMeaning | app.js:770-779 | the plotted keys are at most twelve, ascending, of the selected year, the latest twelve of that year |
| MonthlyViews.MonthlyChartShown | app.js:770-780 | every month on the chart is a month with records, of the selected year |
| MonthlyViews.MonthlyChartOrder | app.js:770-780 | the chart shows at most twelve months, in strictly ascending key order |
| MonthlyViews.MonthlyChartLeftOut | app.js:770-780 | months of the selected year left off the chart are older than every month shown, and none is left off when fewer than twelve are shown |
| MonthlyViews.MonthlyChartMeaning | app.js:762-781 | all of the chart's properties together; with "All Years" the chart is empty |
| MonthlyViews.BreakdownKeys | app.js:849-855 | the filtered keys are exactly the selected year's month keys |
| MonthlyViews.BreakdownKeysStrict | app.js:849-855 | the filtered keys are strictly descending |
| MonthlyViews.MonthlyBreakdownEmpty | app.js:836-860 | "No monthly data" exactly when there are no months; "No data for this year" exactly when there are months but none of the selected year, always so with "All Years" |
| MonthlyViews.MonthlyBreakdownCards | app.js:849-862 | the cards are exactly the selected year's months, newest key first |
| MonthlyViews.MonthlyBreakdownMeaning | app.js:836-862 | both empty states and the cards together |
| MonthlyViews.AllYearsShowsNoMonths | app.js:762-776 | with "All Years" the year filter keeps every record, yet the chart is empty and the breakdown reports no data for the year |

## Left out

- DOM wiring, tab switching, form show/hide, `confirm` and the event listeners are user-interface plumbing and are not modelled.
- HTML templating of the list, the autocomplete lists, the top places and the breakdown cards is presentation only. The model stops at the data each template is filled from.
- Chart.js construction, colours and the tooltip percentage are a foreign library and floating-point arithmetic.
- `localStorage` with `JSON.parse`/`JSON.stringify` (`getDrinks`, `saveDrinks`) is I/O. The list is an explicit argument and result, and the `getUnique*` functions take the list as a parameter.
- `Date.now()`, `new Date()`, `toISOString`, `getFullYear`/`getMonth` and `toLocaleDateString` depend on the clock, locale and time zone. A record's timestamp is its calendar `(year, month)`, the id and the current month are parameters of `NewDrink`, and the month label is the function parameter `labelOf`.
- Drinks.AddDrink: modelled as a function returning the new list rather than an `unshift` on a shared array. Aliasing of that array is not captured.
- Object keys that look like array indices (a place named "711", say) iterate first in JavaScript. The model assumes all object keys iterate in insertion order, which changes the tie-break of `getMostVisitedPlace` and `getTopPlaces` for such places.
- The key `__proto__`, and keys inherited from `Object.prototype`, behave specially on plain objects. The model treats every key as an ordinary key.
- Case mapping covers ASCII letters only. `toLowerCase`/`toUpperCase` on other letters (and characters whose case mapping changes length) are not modelled.
- String order is order on `char` values. JavaScript's `sort()` compares UTF-16 code units, which differs for characters outside the Basic Multilingual Plane.
- Text.ParseLeadingDigits: models `parseInt` only for what follows `split('-')[0]` of a month key: a run of decimal digits, `NaN` when there is none. Signs, leading whitespace and other radixes are not modelled.
- Months.MonthKeyChronological: holds only for four-digit years. For other widths the string sort the source uses is not chronological.
- Negative years give a key starting with `-`, whose year reads back as `NaN`. `Months.KeyYearOfMonthKey` states this. No other result is claimed for them.
- `getTopPlaces`' default `limit = 5` is not modelled separately. `Stats.TopPlaces` takes the limit as a parameter.
- `formatTime`, `formatDate`, the emoji table and the per-record rendering in `loadDrinks` are presentation only. The one rule taken from that rendering is the type label, `Stats.TypeLabel`.
