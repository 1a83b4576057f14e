# Electric car catalogue: listing service, schema, CSV import and grid columns

This project is a Dafny model of the logic at the centre of the electric-car
catalogue, with proofs about that model. The catalogue has an Express/MongoDB
backend and a React/ag-Grid frontend. The model covers four parts:

- **`getAllCars`** (`BE/services/car.service.js`): a listing request holds
  search text, `filter` items of the form `{field, operator, value}`, a page
  and a limit. The service turns it into a query with:
  - an optional `$or` search over Brand, Model, BodyStyle and PowerTrain;
  - one condition per path, where a later filter item overwrites an earlier
    one.

  The query is answered with the number of matches and one page of them,
  sorted by Brand, then Model. The query builder is a method whose loop
  updates a map, proved against the specification function `Merge`.
  Matching, sorting and paging are functions over an in-memory sequence of
  records. `getCarById` and `deleteCar` are a lookup and a removal on the
  `CarStore` class.
- **The car schema** (`BE/models/car.js`): a constructor `NewCar`. Brand and
  Model are required and trimmed. Every other field left out takes its
  default. The four paths of the text index are listed.
- **The import script** (`BE/scripts/import-data.js`): `safeParseInt` over a
  model of JavaScript's `parseInt`, the mapping from a CSV row to the
  constructor's input, and the import loop. The loop is a method over the
  `CarStore` class: it clears the store, saves each row and counts the saved
  rows, skipping rows that fail validation.
- **The grid's columns and pagination**
  (`FE/src/components/DataGrid/DataGrid.tsx`):
  - the columns derived from the first row's keys;
  - the 1-based page the grid reports to its parent;
  - the page count it shows.

Files, one module each:

| file | module | contents |
|---|---|---|
| `wrappers.dfy` | `Wrappers` | `Option`, `Result` |
| `text.dfy` | `Text` | `String.prototype.trim` with JavaScript's whitespace set, ASCII lower-casing, `includes` |
| `numbers.dfy` | `Numbers` | `parseInt` without a radix, decimal rendering, `Math.ceil(n / d)` |
| `car_model.dfy` | `CarModel` | the `Car` record, the constructor with its validation and defaults, the value at a path |
| `store.dfy` | `Store` | class `CarStore`: records in insertion order and an identity counter |
| `query_engine.dfy` | `QueryEngine` | conditions, matching, Brand/Model order, skip and limit |
| `car_service.dfy` | `CarService` | filter items, the query builder, `getAllCars` |
| `import_data.dfy` | `ImportData` | `safeParseInt`, the row mapping, the import loop |
| `data_grid.dfy` | `DataGrid` | column definitions, page reporting, page count |

## Behaviours worth knowing

The model does what the code does, including these behaviours:

- Only the five operators of the `switch` are recognised. A filter item with
  any other operator is ignored.
- The sort is always Brand, then Model. The request cannot choose another.
- A later filter item on a path replaces an earlier one on that path, so
  adding a filter item can widen the result as well as narrow it: after
  `Brand equals BMW`, a further `Brand contains ''` lets every car through.
- `totalPages` is `Math.ceil(total / limit)`, so it is 0 when nothing
  matches.
- A filter item that is not valid JSON makes `getAllCars` rethrow the parse
  error, with no partial result. The model's error is `InvalidFilter`
  carrying the first such item.

## Model

| member | source | states |
|---|---|---|
| CarService.FilterItems | BE/services/car.service.js:22-23 | no filter gives no items; a single item gives a one-item list, except the empty string, which gives none; a repeated filter gives its items as they are |
| CarService.SearchClause | BE/services/car.service.js:11-19 | no search clause exactly when the search is absent or all whitespace; otherwise the clause text is the trimmed search, which is non-empty |
| QueryEngine.SearchOverTextIndex | BE/services/car.service.js:13-18 | a car passes the search exactly when some path of the schema's text index contains the text, up to case |
| CarService.ConditionOf | BE/services/car.service.js:26-42 | an operator yields a condition exactly when it is one of contains, equals, startsWith, endsWith, isEmpty |
| CarService.OperatorMeaning | BE/services/car.service.js:26-42 | the condition each recognised operator builds holds of a value exactly when the operator's meaning does: `contains` an occurrence up to case, `equals` the exact string or a number rendered as the value, `startsWith` and `endsWith` an occurrence up to case at the start or at the end, `isEmpty` '' or no value |
| CarService.LastFilterHolds | BE/services/car.service.js:22-49 | when an item is the last recognised one naming its path, every car the built query matches meets that item's operator on its value at that path |
| CarService.MergeStep | BE/services/car.service.js:24-43 | one more filter item sets its path's condition when its operator is recognised, and leaves every other path as it was |
| CarService.MergeDomain | BE/services/car.service.js:22-43 | a path has a condition exactly when some filter item with a recognised operator names it |
| CarService.MergeLastWins | BE/services/car.service.js:24-43 | a path's condition comes from the last item with a recognised operator that names the path |
| CarService.MergeIgnoresUnknown | BE/services/car.service.js:26-42 | an item with an unknown operator leaves the conditions unchanged |
| CarService.BuildQuery | BE/services/car.service.js:7-44 | the loop over the filter items builds exactly `Merge` of the items, with the search clause; it fails exactly when an item is not JSON, reporting the first such item |
| CarService.GetAllCars | BE/services/car.service.js:5-64 | within the model, fails exactly when a filter item is not JSON, reporting the first such item; the store's cast errors are not modelled (see Left out). Otherwise: total counts every match; page echoes the request (default 1); totalPages is the ceiling of total over limit (default 10); the cars are the sorted matches from position (page-1)*limit, at most limit of them, sorted, each a stored car that matches |
| QueryEngine.ContainsCIIff | BE/services/car.service.js:27-29 | `contains` holds exactly when some block of the value equals the text up to ASCII case |
| QueryEngine.SatisfiesMeaning | BE/services/car.service.js:26-42 | `contains` holds exactly when the text occurs in a string value up to case; `startsWith` exactly when it occurs at the start; `endsWith` exactly when it occurs at the end; `equals` on a string holds exactly for the same string, an `equals` that matches a number reads back as that number, and `equals` never holds of any other value; `isEmpty` holds exactly for '' or a missing path; no regex condition matches a non-string |
| QueryEngine.EqualsNumberParses | BE/services/car.service.js:30-32 | an `equals` value matches a number path only if it reads back as that number |
| QueryEngine.MatchingCars | BE/services/car.service.js:46-49 | a car is among the matches exactly when it is stored and satisfies the search and every condition; a matching car occurs as often as in the store, and a car that does not match occurs not at all |
| QueryEngine.EmptyQueryMatchesAll | BE/services/car.service.js:46-49 | a request with no search and no filter matches every stored car, in store order |
| QueryEngine.MatchesFewerConditions | BE/services/car.service.js:24-43 | dropping conditions from the query map keeps every match |
| QueryEngine.StrLeqReflexive | BE/services/car.service.js:50 | the string order is reflexive |
| QueryEngine.StrLeqTotal | BE/services/car.service.js:50 | any two strings are ordered one way or the other |
| QueryEngine.StrLeqAntisymmetric | BE/services/car.service.js:50 | strings ordered both ways are equal |
| QueryEngine.StrLeqTransitive | BE/services/car.service.js:50 | the string order is transitive |
| QueryEngine.KeyLeqTotal | BE/services/car.service.js:50 | any two cars are ordered by Brand, then Model, one way or the other |
| QueryEngine.KeyLeqTransitive | BE/services/car.service.js:50 | the Brand-then-Model order is transitive |
| QueryEngine.InsertByKey | BE/services/car.service.js:50 | inserting into a sorted sequence keeps it sorted and adds exactly the one car |
| QueryEngine.SortByBrandModel | BE/services/car.service.js:49-50 | the result is sorted by Brand, then Model, and is a permutation of the matches |
| QueryEngine.Skip | BE/services/car.service.js:47 | the skip is a whole number of pages, exactly the page-1 pages before the requested one |
| QueryEngine.PageOf | BE/services/car.service.js:51-52 | the page has at most limit cars, exactly min(limit, remaining) of them, and car k of the page is car skip+k of the sorted matches |
| QueryEngine.PageOfSlice | BE/services/car.service.js:49-52 | a page holds only cars of the result it is cut from and stays sorted |
| QueryEngine.SortedMatchesMember | BE/services/car.service.js:49-52 | every car in the sorted result is a stored car that matches |
| QueryEngine.OnItsPage | BE/services/car.service.js:47-58 | the car at position i is on page i/limit+1, at offset i mod limit, and that page is within totalPages |
| QueryEngine.PastLastPage | BE/services/car.service.js:47-58 | a page past totalPages is empty |
| QueryEngine.InnerPageFull | BE/services/car.service.js:47-58 | every page before the last one holds exactly limit cars |
| Numbers.CeilDiv | BE/services/car.service.js:58 | the page count is the least number of pages of `limit` that hold `total` records; it is 0 exactly when total is 0 |
| Store.CarStore.FindById | BE/services/car.service.js:66-75 | the lookup returns a stored record with that identity, and none exactly when no record has it |
| Store.CarStore.FindByIdAndDelete | BE/services/car.service.js:86-88 | returns the record with that identity, if any, and leaves exactly the other records; the store invariant is kept |
| Store.RemoveIdAppend | BE/services/car.service.js:86-88 | deleting keeps the order of the records it keeps: it distributes over concatenation |
| Store.RemoveIdCount | BE/services/car.service.js:86-88 | with unique identities, deleting a present identity removes exactly one record and deleting an absent one changes nothing |
| Store.RemoveIdUnique | BE/services/car.service.js:86-88 | deleting keeps identities unique |
| Store.CarStore.Save | BE/services/car.service.js:77-80 | saving appends the constructed record under the next identity when it validates, and otherwise leaves the store unchanged |
| CarModel.NewCar | BE/models/car.js:3-13 | construction succeeds exactly when Brand and Model are given and not blank once trimmed; a failure names exactly the failing paths and no other; a saved car holds trimmed Brand and Model and is valid |
| CarModel.FailedPaths | BE/models/car.js:4-13 | the validation error names Brand exactly when Brand fails, Model exactly when Model fails, no other path, and no path twice |
| CarModel.FieldValueKinds | BE/models/car.js:3-68 | a document holds a string exactly at the seven String paths, an integer exactly at the six integer Number paths and at the version key `__v`, which holds 0; some other value at AccelSec, Date, `_id` and the timestamps; and nothing at any other path |
| CarModel.FieldValueOfNewCarText | BE/models/car.js:3-53 | a new car holds at Brand and Model their trimmed values, and at each other String path the given text or '' |
| CarModel.FieldValueOfNewCarNumbers | BE/models/car.js:18-61 | a new car holds at each integer Number path the given number or 0, and version 0 at `__v` |
| CarModel.NewCarDefaults | BE/models/car.js:14-65 | each number left out is 0, each text left out is '', and Date left out is the current time |
| CarModel.NewCarKeepsGiven | BE/models/car.js:14-65 | each field given other than Brand and Model is stored as given |
| Text.Trim | BE/models/car.js:7 | the trimmed text is no longer than the text and neither starts nor ends with whitespace |
| Text.TrimEmptyIff | BE/models/car.js:7 | a text trims to '' exactly when it is all whitespace |
| Text.TrimIdempotent | BE/models/car.js:12 | trimming a trimmed text changes nothing |
| Store.CarStore.DeleteMany | BE/scripts/import-data.js:14 | clearing empties the store and keeps the identity counter |
| ImportData.SafeParseInt | BE/scripts/import-data.js:30-34 | 0 for a missing or empty cell and for a cell `parseInt` reads as NaN; otherwise `parseInt`'s integer |
| ImportData.SafeParseIntDecimal | BE/scripts/import-data.js:30-34 | a cell holding the decimal rendering of an integer reads back as that integer |
| ImportData.SafeParseIntLeadingDigits | BE/scripts/import-data.js:32-33 | a cell that starts with digits reads as those digits when nothing or a non-digit follows them, unless the digits are a lone 0 followed by x or X, which starts a hexadecimal number |
| Numbers.ParseIntDigitPrefix | BE/scripts/import-data.js:32 | `parseInt` of digits followed by nothing or a non-digit reads exactly those digits, unless a lone 0 is followed by x or X |
| Numbers.ParseIntLeadingWhitespace | BE/scripts/import-data.js:32 | `parseInt` skips leading whitespace |
| Numbers.ParseIntNoDigits | BE/scripts/import-data.js:32 | text that starts with neither whitespace, a sign nor a digit reads as NaN |
| Numbers.ParseIntDecimal | BE/scripts/import-data.js:32 | `parseInt(String(n))` is n for every integer n |
| ImportData.TextCell | BE/scripts/import-data.js:52-53 | a missing text cell gives '' and a present one gives its text |
| ImportData.RowToInput | BE/scripts/import-data.js:51-67 | the constructor gets every column: Brand, Model and the five text columns as their cell or '', the six integer columns through `safeParseInt`, and AccelSec and Date as converted |
| ImportData.RowToCar | BE/scripts/import-data.js:51-67 | a saved row holds its trimmed Brand and Model, '' for each of the five text columns that is missing, 0 for each of the six integer columns that is missing, and its AccelSec and Date |
| ImportData.RowSavesIff | BE/scripts/import-data.js:49-74 | a row saves exactly when its Brand and Model cells are not blank |
| ImportData.SavedRows | BE/scripts/import-data.js:49-74 | a row is among the saving rows exactly when it is one of the rows and saves |
| ImportData.SavedRowsAppend | BE/scripts/import-data.js:28-75 | the saving rows keep their file order: selecting them distributes over concatenation |
| ImportData.ImportedRows | BE/scripts/import-data.js:49-74 | the k-th record the import leaves is the k-th saving row, under the k-th identity; no failing row leaves a record |
| ImportData.ImportedNext | BE/scripts/import-data.js:69-70 | processing one more row adds its record when it saves and nothing otherwise |
| ImportData.ImportedConsistent | BE/scripts/import-data.js:49-74 | the imported records carry consecutive identities and satisfy the store invariant |
| ImportData.ImportRow | BE/scripts/import-data.js:49-74 | one pass of the loop adds the row's record exactly when it saves and keeps the store invariant |
| ImportData.ImportedCount | BE/scripts/import-data.js:27-75 | the import leaves one record per saving row |
| ImportData.ImportedFinal | BE/scripts/import-data.js:27-75 | the finished import leaves one record per saving row, each with an identity at or above the first |
| ImportData.ImportData | BE/scripts/import-data.js:8-83 | the store is cleared, then holds exactly the records of the saving rows in file order; count equals the number of saving rows |
| DataGrid.ColumnDefs | FE/src/components/DataGrid/DataGrid.tsx:139-166 | no rows give no columns; otherwise one data column per kept key of the first row, in order, then the Actions column last |
| DataGrid.ColumnDefsActionsLast | FE/src/components/DataGrid/DataGrid.tsx:154-165 | exactly one column, the last, is not sortable, and exactly that one has no filter; every data column comes from a kept key |
| DataGrid.KeptKeys | FE/src/components/DataGrid/DataGrid.tsx:143-144 | a key is kept exactly when it is a key of the row other than `_id` and `__v` |
| DataGrid.KeptKeysAppend | FE/src/components/DataGrid/DataGrid.tsx:143-144 | filtering keeps the keys' order: it distributes over concatenation |
| DataGrid.InsertSpaces | FE/src/components/DataGrid/DataGrid.tsx:147 | every capital in the spaced key follows a space |
| DataGrid.HeaderName | FE/src/components/DataGrid/DataGrid.tsx:147 | the header neither starts nor ends with whitespace, and deleting whitespace from it gives the key with its whitespace deleted |
| DataGrid.InsertSpacesOnlyBeforeCapitals | FE/src/components/DataGrid/DataGrid.tsx:147 | for a key without whitespace, a capital follows every space of the spaced key, and the plain space is its only whitespace |
| DataGrid.HeaderNameSpaces | FE/src/components/DataGrid/DataGrid.tsx:147 | for a key without whitespace, a capital follows every space of the header, so each space separates two words, and the plain space is its only whitespace |
| DataGrid.HeaderNameKey | FE/src/components/DataGrid/DataGrid.tsx:147 | deleting the spaces from a header gives back its key, for a key without whitespace |
| DataGrid.HeaderNameShape | FE/src/components/DataGrid/DataGrid.tsx:147 | the header is the spaced key, less the leading space when the key starts with a capital; every later capital follows a space |
| DataGrid.FilterForIff | FE/src/components/DataGrid/DataGrid.tsx:149-151 | a key gets the number filter exactly when `Km`, `Sec` or `Euro` occurs in it, and the text filter otherwise |
| Text.IncludesIff | FE/src/components/DataGrid/DataGrid.tsx:149 | `includes` holds exactly when the text occurs at some position |
| DataGrid.PageReported | FE/src/components/DataGrid/DataGrid.tsx:168-179 | a page is reported exactly when the grid API exists, the event carries a new page or page size, and the parent passed an `onPageChange` callback; the reported page is the 0-based page plus 1, with the grid's page size |
| DataGrid.ReportedPageSkip | FE/src/components/DataGrid/DataGrid.tsx:177 | handing the reported page to the list service skips exactly the rows before the grid's page |
| DataGrid.TotalPages | FE/src/components/DataGrid/DataGrid.tsx:215 | the page count is the least number of pages that hold all rows |
| DataGrid.PageWithinTotal | FE/src/components/DataGrid/DataGrid.tsx:215 | a page that starts at an existing row is within the page count |

## Left out

- CarService.GetAllCars: it requires page and limit to be integers of at least 1. The source would reach a NaN skip and limit from a non-numeric page or limit, and a negative skip from page 0. Neither is modelled.
- QueryEngine.Satisfies: contains, startsWith, endsWith and the search are literal substring, prefix and suffix tests, case-insensitive over ASCII letters. The source builds regular expressions from unescaped user input. Regex metacharacters, an invalid pattern that throws, and Unicode case folding are not modelled.
- QueryEngine.Satisfies: for a number path, `equals` compares the value with the number's decimal rendering. Mongoose's cast of the value to a Number (so "075" also matches 75), the regex conditions on number paths, and conditions on AccelSec, Date, `_id` and the timestamps are not modelled.
- CarService.FilterItem: a filter item is either a parsed `{field, operator, value}` with string fields or text that `JSON.parse` rejects. Valid JSON that is not such an object is not modelled. This covers a non-string value, `null`, and dotted or `$`-prefixed field names.
- QueryEngine.Satisfies: a `contains`, `startsWith` or `endsWith` filter on a Number or Date path makes the store throw a cast error, and `getAllCars` then rethrows it. The model returns no match instead.
- QueryEngine.Satisfies: an `equals` filter whose value is not numeric makes the store throw a cast error on a Number path, and `getAllCars` then rethrows it. The model returns no match instead.
- QueryEngine.Satisfies: the schema's `trim` setter also applies to an `equals` value on Brand or Model, so " Tesla " matches "Tesla" in the store. The model compares the value untrimmed.
- CarModel.FieldValue: every saved document holds the version key `__v` as 0, and no modelled operation changes it. A filter on a path the schema does not declare, other than `__v`, is kept here as a condition on a missing value. Depending on Mongoose's `strictQuery` setting, the store may drop such a condition instead.
- CarService.GetAllCars: it fails only on a filter item that is not JSON. The store's cast errors, listed above, are not modelled.
- QueryEngine.SortByBrandModel: the order among cars with equal Brand and Model is not specified, as MongoDB does not specify it.
- CarService.GetAllCars: the count and the find are one atomic step here. In the source they are two separate queries, which differ only under concurrent writes.
- The logger calls and the `try`/`catch` that rethrow in `getAllCars` and `getCarById` are not modelled: logging has no effect on the results.
- `updateCar` (`findByIdAndUpdate`) is not modelled. It bypasses the schema's validators and is a thin wrapper over the store.
- Store.CarStore: identities are naturals from a counter. ObjectId generation, `timestamps` (createdAt, updatedAt) and the database connection are not modelled.
- ImportData.RowToInput: AccelSec and Date come into the row already converted. `safeParseFloat` is floating point and `safeParseDate` is JavaScript date parsing; neither is modelled.
- CSV reading (`csv-parse`, with its `trim` and `skip_empty_lines` options), file streams, console output and `process.exit` are not modelled. A row is a map from column name to cell text.
- Numbers.ParseInt: results above 2^53 are exact here, where JavaScript rounds them to the nearest double.
- DataGrid.TotalPages: it requires a page size of at least 1. The grid only offers sizes 10, 25, 50 and 100; a zero page size would give Infinity or NaN in the source.
- DataGrid.ColumnDefs: the action renderer, the styled container, and the `defaultColDef` options other than sortable, filter and flex are not modelled. Those options are floatingFilter, resizable and minWidth. The ag-Grid wiring and the other frontend components are not modelled either.
- Express setup, the request logger middleware, the axios client and the React containers are not part of this model.
