# Price finder lookup and history, in Dafny

A model of the lookup and history logic of a point-of-sale price finder
(`script.js`). An operator scans or types a product code or name. The page
searches the inventory downloaded from a spreadsheet, shows the matching
products with their card and cash prices, and keeps a short history of
lookups that found exactly one product.

The model has six modules:

- `Strings` (strings.dfy): the JavaScript string operations the lookup uses.
  `toLowerCase` is an ASCII case fold (`Lower`). `trim` removes ECMAScript
  white space and line terminators from both ends (`TrimStart`, `TrimEnd`,
  `Trim`). `includes` is a substring scan (`Contains`).
- `Catalog` (catalog.dfy): a product row with optional `Codigo`,
  `Descripcion`, `Credito` and `Efectivo` cells, where `None` is `undefined`.
  It also holds `formatMoney`.
- `Arrays` (arrays.dfy): `Array.prototype.filter` over sequences, with its
  membership, multiplicity, order and single-result properties.
- `Lookup` (lookup.dfy): the query normalisation and the filter callback of
  `performSearch`, the outcome of a search, and which row, if any, goes into
  the history. `Keep(q)` is `Matches` as the callback value handed to `Filter`.
- `HistoryLedger` (history.dfy): the `searchHistory` list as a class whose
  `Add` method is `addToHistory`, and the function `Pushed` that specifies
  it. The class keeps two invariants: at most 10 entries, and no two adjacent
  entries with the same code.
- `PriceFinder` (finder.dfy): the page state (inventory, search-field value,
  history) and `performSearch` as a method that clears the field, searches,
  and adds a single result to the history.

Facts about `script.js` that the model keeps:

- The history keeps 10 entries (script.js:111-114).
- The code has no history clearing, no persistence of the dataset or the
  history and no live/stale status. A failed download only shows an error
  banner (script.js:33-37).
- `formatMoney` prefixes `$` unconditionally. A price cell that already
  starts with `$` is shown as `$$…` (`Catalog.FormatMoneyKeepsSymbol`).

## Model

| member | source | states |
|---|---|---|
| `Strings.Lower` | script.js:42 | The folded string has the same length; each character is the fold of the character at the same position; no upper-case ASCII letter is left |
| `Strings.LowerKeepsWhitespace` | script.js:42 | Folding does not change whether a string is all white space, so lower-casing before trimming does not change which queries are blank |
| `Strings.TrimStart` | script.js:42 | The result is a suffix of the input; everything cut off is white space; the result does not start with white space |
| `Strings.TrimEnd` | script.js:42 | The result is a prefix of the input; everything cut off is white space; the result does not end with white space |
| `Strings.Trim` | script.js:42 | The result is a slice of the input with only white space on either side; it is empty iff the input is all white space; a non-empty result starts and ends with a non-white-space character |
| `Strings.Contains` | script.js:55 | The empty pattern is contained in every text; a contained pattern is no longer than the text |
| `Strings.ContainsIff` | script.js:55 | The `includes` scan succeeds iff the pattern occurs at some position of the text |
| `Catalog.Text` | script.js:52-53 | A cell reads as the empty string exactly when it is missing or empty; a present cell reads as its own string |
| `Catalog.FormatMoney` | script.js:79 | A price is shown as `$` followed by the cell's text; a missing or empty cell is shown as `$0` |
| `Catalog.FormatMoneyInjective` | script.js:79 | Two non-empty price cells are shown as the same string iff they are the same string |
| `Catalog.FormatMoneyKeepsSymbol` | script.js:79 | A cell that already starts with `$` is shown with two `$` signs: no symbol is stripped |
| `Arrays.Filter` | script.js:51-56 | The result is no longer than the input, and every element of it is an input element that the callback keeps |
| `Arrays.FilterMembership` | script.js:51-56 | An element is in the result iff it is in the input and the callback keeps it |
| `Arrays.FilterCount` | script.js:51-56 | A kept element occurs in the result as often as in the input; any other element does not occur |
| `Arrays.FilterAppend` | script.js:51-56 | Filtering a concatenation is the concatenation of the filtered parts, so the result keeps input order |
| `Arrays.FilterIsSubsequence` | script.js:51-56 | The result is embedded in the input at strictly increasing positions |
| `Arrays.FilterSingleton` | script.js:61 | The result is exactly `[p]` iff `p` is kept, occurs once in the input, and no other input element is kept |
| `Lookup.Normalize` | script.js:42 | The normalised query is empty iff the raw input is all white space; a non-empty query neither starts nor ends with white space |
| `Lookup.Matches` | script.js:52-55 | A row whose lower-cased code equals the query matches; for a query of at most 3 characters that is the only way to match |
| `Lookup.MatchesIff` | script.js:52-55 | A row matches iff its lower-cased code equals the query, or the query is longer than 3 characters and occurs at some position of its lower-cased description |
| `Lookup.Search` | script.js:41-48 | A search returns early (shows and records nothing) iff the raw query is empty or all white space |
| `Lookup.Recorded` | script.js:61-63 | A row is recorded iff the search ran and found exactly one row, and that row is the whole result |
| `Lookup.SearchIsOrderedFilter` | script.js:51-56 | For a non-blank query the results are exactly the matching inventory rows, each as often as in the inventory, in inventory order |
| `Lookup.ExactCodeFound` | script.js:52-55 | A row whose lower-cased code equals the normalised query is in the results, whatever the query's length |
| `Lookup.ShortQueryMatchesCodeOnly` | script.js:55 | For a query of at most 3 characters a row is in the results iff its lower-cased code equals the query; descriptions are not searched |
| `Lookup.MissingCodeMatchesByDescription` | script.js:52-55 | A row with a missing or empty code matches a non-empty query iff the query is longer than 3 characters and occurs in its lower-cased description |
| `Lookup.MissingCodeFoundByDescription` | script.js:51-56 | A row with a missing or empty code is in the results of a non-blank query iff the query is longer than 3 characters and occurs in its description |
| `Lookup.BlankQueryRecordsNothing` | script.js:42-48 | A blank query is ignored and records nothing in the history |
| `Lookup.RecordedIsSoleMatch` | script.js:51-63 | Row `p` is recorded iff the query is not blank, `p` matches, `p` occurs once in the inventory, and no other inventory row matches |
| `HistoryLedger.Pushed` | script.js:104-114 | After adding, the history is not empty and its head has the added product's code; it grows by at most one and never past 10 entries when it was within 10 |
| `HistoryLedger.PushedRepeatIgnored` | script.js:104-106 | Adding a product whose code equals the head entry's code (raw, case-sensitive comparison) leaves the history unchanged |
| `HistoryLedger.PushedNewHead` | script.js:108-114 | Any other product becomes the head; the length grows by one up to 10; the old entries follow, with at most the oldest one dropped |
| `HistoryLedger.PushedEvictsOldest` | script.js:111-114 | Adding a new product to a full history removes exactly the oldest entry and adds the product |
| `HistoryLedger.PushedWellFormed` | script.js:102-114 | Adding keeps the history at most 10 long and free of adjacent entries with equal codes |
| `HistoryLedger.History.constructor` | script.js:6 | The history starts empty and well formed |
| `HistoryLedger.History.Add` | script.js:102-117 | `addToHistory` updates the list in place to `Pushed(old list, product)` and keeps the invariant |
| `PriceFinder.Finder.constructor` | script.js:5-6 | The page starts with an empty inventory and an empty history; the empty search field is a modelling choice, since its initial value comes from the page markup |
| `PriceFinder.Finder.Loaded` | script.js:28-29 | A completed download replaces the inventory wholesale, touches nothing else and keeps the page invariant |
| `PriceFinder.Finder.PerformSearch` | script.js:41-64 | `performSearch` clears the field, returns the outcome of `Search` on the old field value, leaves the inventory alone, and adds the single result (and only it) to the history, through `Pushed` |

## Left out

- `fetchData` and the CSV download and parsing (script.js:23-39) are not modelled. They are network I/O in a foreign library. The parsed rows arrive as the argument of `Finder.Loaded`. The loading indicator and the error banner are UI.
- `displayResults` (script.js:66-99) is not modelled apart from `formatMoney`. The card markup, the "Art. Sin Nombre" title fallback and the code line are DOM work. The rows it shows are the `results` of the `Searched` outcome. The early return of a blank query corresponds to `Ignored`.
- `renderHistory` (script.js:119-136), input focus and the event listeners (script.js:16-21, 139-148) are not modelled. They are DOM wiring. The field value is the `input` field of `Finder`, and callers set it directly.
- Strings.Lower: folds ASCII letters only. JavaScript's `toLowerCase` folds every Unicode letter and can change a string's length.
- Lookup.Normalize: lengths are counted in Unicode scalar values. JavaScript counts UTF-16 code units, so a query with characters outside the Basic Multilingual Plane can pass the more-than-3 test in the source and fail it here.
- Only string cells are modelled. The parser produces only strings or `undefined`, so the truthiness test of `formatMoney` and of the filter callback comes down to "missing or empty".
