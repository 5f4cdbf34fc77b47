# Storefront catalog query and stack calculator

This project models the two pieces of logic in the storefront's `script.js` that are more than page glue:

- **The catalog query in `renderItems`.** It reads the search field, the category select and the sort select. It keeps the items whose lower-cased name contains the lower-cased search text and whose category is the selected one (or the selection is `"Alle"`). It sorts that copy in place by price (ascending or descending), by stack size (descending) or by name. It then fills the items container with either a "no items found" notice or one card per item. On the card path it also writes the size of the whole catalog into the total-items counter.
- **The stack calculator, `updateCalculator`.** It reads the amount with `parseInt(...) || 1` and shows the total price. It also shows the amount split into `Math.floor(amount / stack)` whole stacks and `amount % stack` loose items.

Modules:

- `Wrappers`: `Option`.
- `Text`: `toLowerCase`, `includes` and `localeCompare` on strings of characters (Unicode code points).
- `Numbers`: `parseInt` without a radix, `Math.floor` of a quotient, and JavaScript's truncating `%`.
- `Sorting`: `Array.prototype.sort` with a comparator.
  - `StableSort` is the stable sort as a function.
  - `StablySorts` says what any stable sort must produce. Every result that satisfies it equals `StableSort`, so the model does not depend on the algorithm an engine uses.
  - `SortInPlace` sorts an array in place and ends with exactly `StableSort` of its old contents.
- `Catalog`: items, the filter predicate, the four comparators, the `switch (sort)` and the whole query `Run`.
- `CatalogView`: the page state `renderItems` changes. This is the class `Page`: a read-only catalog array, the container's children and the total-items counter.
- `Calculator`: the amount fallback, the three values the calculator writes, and what they mean for positive and negative amounts.

## Model

| member | source | states |
|---|---|---|
| Text.ToLower | script.js:97-103 | the length is kept, no capital is left, capital ASCII letters become their small letters, and small letters and digits stay as they are |
| Text.Includes | script.js:103 | the empty search text is found in every name, and a text longer than the name is never found |
| Text.IncludesIff | script.js:103 | `includes` is true exactly when the needle occurs at some position of the text |
| Text.IncludesIgnoresCase | script.js:97-103 | the lower-cased name contains the lower-cased search text exactly when the search text occurs in the name in some casing, so the search is case-insensitive |
| Text.LocaleCompare | script.js:120 | the comparison result is -1, 0 or 1, and it is 0 exactly when the two names are equal |
| Text.LocaleCompareAntisymmetric | script.js:120 | swapping the two names flips the sign of the comparison |
| Text.LocaleCompareTransitive | script.js:120 | "comes no later than" by name is transitive |
| Numbers.ParseInt | script.js:186 | text that is only white space, or that starts with neither a sign nor a decimal digit after the white space, is `NaN`; only a leading minus gives a negative number |
| Numbers.ParseIntZeros | script.js:186 | `"-0"` and `"00"` both parse to 0 |
| Numbers.ParseIntDecimal | script.js:186 | `parseInt` reads back every whole number written in decimal, negative ones included |
| Numbers.FloorDiv | script.js:190 | `Math.floor(a / b)` is the quotient rounded down: `q*b <= a < q*b + b` |
| Numbers.JsRem | script.js:191 | `a % b` is `a` minus the truncated quotient times `b`; it lies in `[0, b)` for `a >= 0` and in `(-b, 0]` for `a < 0` |
| Numbers.FloorRemNegative | script.js:190-191 | for a negative `a`, floor quotient times `b` plus `a % b` is `a` when `a % b` is 0 and `a - b` otherwise, so the identity fails for every negative `a` that `b` does not divide |
| Sorting.StableSortCorrect | script.js:108-122 | the sort result is ordered by the comparator, is a permutation of its input, and keeps tied items in input order |
| Sorting.StablySortsUnique | script.js:108-122 | two results that are both ordered, permutations and stable for the same input are equal |
| Sorting.StableSortIsTheStableSort | script.js:108-122 | every stable sort of a sequence is `StableSort` of it |
| Sorting.StableSortIdempotent | script.js:108-122 | sorting a sorted result again leaves it as it is |
| Sorting.SortInPlace | script.js:110-120 | after `sort` the array holds the stable sort of what it held before |
| Catalog.ParseKeyName | script.js:108-122 | each of the four control values selects its own sort key |
| Catalog.ParseSortKey | script.js:108-122 | the name order is chosen exactly when the sort value is none of `price-asc`, `price-desc`, `stack`; every other key is chosen only by its own value |
| Catalog.ReadQuery | script.js:97-99 | missing controls read as `""`, `"Alle"` and the name order; the search text is held in lower case and lower-cases to what the typed text does; a present category or sort value is used as it is |
| Catalog.MatchesControls | script.js:97-105 | an item passes the filter exactly when the typed search occurs in its name in any casing, and the category select is missing, `"Alle"` or the item's category |
| Catalog.Filter | script.js:102-105 | every kept item matches; each matching item is kept as often as it occurs in the catalog, and every other item is dropped |
| Catalog.FilterAppend | script.js:102-105 | filtering a concatenation filters each part, so the filter keeps catalog order |
| Catalog.FilterTies | script.js:102-105 | filtering commutes with taking the items tied with `x`: the filtered items tied with `x` are the catalog items tied with `x`, filtered |
| Catalog.FilterKeepsAll | script.js:102-105 | an empty search with category `"Alle"` keeps the whole catalog, in order |
| Catalog.Compare | script.js:109-120 | `price-asc` is negative exactly for a lower price, `price-desc` for a higher price, `stack` for a larger stack, and each is 0 exactly for equal prices or stacks; the name comparator is 0 exactly for equal names |
| Catalog.ComparatorConsistent | script.js:108-121 | each of the four comparators orders every pair of items, transitively |
| Catalog.Run | script.js:102-122 | the result holds exactly the matching catalog items, each as often as in the catalog |
| Catalog.RunCorrect | script.js:102-122 | the result is ordered by the key and is a stable sort of the filtered items; the matching items the key ties appear in catalog order |
| Catalog.RunOrder | script.js:108-122 | `price-asc` gives non-decreasing prices, `price-desc` non-increasing prices, `stack` non-increasing stacks, and any other key non-decreasing names |
| Catalog.RunDefaults | script.js:97-122 | with every control missing, the page shows the whole catalog sorted by name |
| Catalog.RunShowsAll | script.js:97-105 | with an empty search and category `"Alle"`, every catalog item is shown, whatever the sort key |
| CatalogView.RenderingShape | script.js:124-150 | the notice is shown, alone, exactly when the result is empty; otherwise there is one card per result item, in result order |
| CatalogView.PlaceholderIffNoMatch | script.js:124-134 | the notice is shown exactly when no catalog item matches the query |
| CatalogView.CardsShowMatches | script.js:136-150 | an item has a card exactly when it is in the catalog and matches the query |
| CatalogView.FilterAndSort | script.js:102-122 | `filter` builds a new array, and `sort` leaves it holding the query result; the catalog array is not written |
| CatalogView.Page.AppendCards | script.js:136-150 | the children already in the container stay, and the card of each item is appended after them, in order |
| CatalogView.Page.RenderItems | script.js:91-156 | without a container, nothing changes. Otherwise the container holds the notice or one card per result item in result order. The counter is set to the catalog size only when a card is shown, and the catalog is unchanged |
| Calculator.Amount | script.js:186 | the amount is never 0: text that does not parse (`NaN`) and a parsed 0 both become 1, and every other parsed number is the amount |
| Calculator.AmountOfBlank | script.js:186 | an emptied field, or one holding only white space, is read as 1 |
| Calculator.AmountOfNonNumber | script.js:186 | text that starts with neither white space, a sign nor a digit is read as 1 |
| Calculator.AmountOfZeros | script.js:186 | `"-0"` and `"00"` parse to 0 and are read as 1 |
| Calculator.AmountOfDecimal | script.js:186 | a typed whole number is taken as it is, negative ones included, except that 0 becomes 1 |
| Calculator.Calculate | script.js:186-191 | the total is price times amount; for an amount that is not negative, stacks times stack size plus the rest is the amount, and the rest is below one stack |
| Calculator.NegativeAmountShort | script.js:190-191 | for a negative amount the rest lies in `(-stack, 0]`; stacks and rest add up to the amount when the rest is 0, and to one stack less otherwise |
| Calculator.NegativeAmountExample | script.js:186-191 | with stacks of 64, `"-5"` shows -1 stacks and -5 items |
| Calculator.LessThanAStack | script.js:190-191 | an amount between 1 and one stack less makes 0 stacks and that many loose items |
| Calculator.UpdateCalculator | script.js:183-193 | the results are written exactly when the amount field and both result fields exist, and then they are `Calculate` of the amount text |
| Calculator.OpenCalculator | script.js:175-177 | on opening, the total is the unit price, and the amount is one loose item, or one whole stack when a stack holds one item |

## Left out

- Loading the catalog with `fetch` and parsing JSON: I/O. The page starts from a given catalog.
- DOM lookups and card templating: a card is modelled as the item it shows. Also left out are the notice's markup, icons, the `popular` class and the click handler.
- `applyConfig`, the money guide, opening and closing modals, the feedback form and its webhook, `showRandomTip` and its timer: page glue, network I/O and randomness.
- Console logging: it has no effect on the state.
- Floating-point prices: prices are whole cents, so `toFixed(2)` and the stack price `price * stack` shown on each card are not modelled.
- Numbers.ParseInt: amounts are unbounded integers, so the loss of precision of doubles above 2^53 is not modelled.
- Text.LocaleCompare: compares characters in order rather than using the browser's locale collation. The proved properties (a consistent total order) are what the sort relies on.
- Strings are sequences of Unicode code points, while JavaScript strings are sequences of UTF-16 code units: a character above U+FFFF is one character here and two units there. This changes only the order of `LocaleCompare` between such characters and those from U+E000 to U+FFFF; `includes` and `toLowerCase` are not affected.
- Text.ToLower: maps only the Basic Latin and Latin-1 capitals. Other Unicode case mappings are not modelled.
- Calculator.Calculate: states the stacks-and-rest law only for amounts that are not negative, because `Math.floor` and `%` round differently below zero. `NegativeAmountShort` states what happens there.
- The stack size of every item is positive, taken as a property of the catalog data (the type `Positive`).
