# Product browser: a Dafny model of its data pipeline and state

The system is a small React front end. It fetches a list of products
(id, name, category, price) from an HTTP API. It shows them in a table
that can be searched by name, filtered by category, sorted by price and
exported as CSV. The source also holds a health indicator component
(`src/components/ApiStatus.jsx`) that shows whether the API's health
endpoint answers. `App` (`src/App.jsx:1-10`) imports and renders only
the product list, so the indicator is defined but never mounted.

This project models the logic inside that front end as pure Dafny
functions over immutable values and proves properties of them:

- `Products`: the product record.
- `ProductApi`: the API client (`src/api/productApi.js`). It covers the
  choice of base URL and the normalisation of the response body, with the
  body as a tagged union of JSON-ish values.
- `Pipeline` and `PriceSort`: the table pipeline of
  `src/components/ProductList.jsx`:
  - the category options ("All" and then the distinct categories, in
    first-seen order);
  - the case-insensitive name search combined with the category filter;
  - the stable price sort, ascending or descending.
- `Csv`: the CSV text of the export, and a parser that reads it back.
- `ProductListState`: the component as a reducer:
  - the filter controls, Toggle Sort and Clear Filters;
  - the fetch lifecycle (`loading`, `refreshing`, `error`, products
    replaced on success);
  - what is rendered;
  - which events the rendered screen allows next.
- `ApiStatus`: the health indicator component, as it would behave if
  mounted. It starts as "checking", one probe makes it "online" or "offline", and
  each status maps to a colour and a text.
- `Text`, `Seqs`, `Optional`: string and sequence vocabulary the modules
  above share. This covers ASCII lower-casing, substring search,
  join/split, integer rendering, distinct elements and subsequences.

Design choices:

- Prices are whole numbers, and the comparator `a.price - b.price` is
  computed exactly.
- The sort direction and the health status stay strings, as in the
  source. This keeps the "any other value" branches of `toggleSort` and
  of the status `switch`.
- The network, the clock and the DOM appear only as inputs:
  - a fetch ends in an event carrying the response body or a failure;
  - a successful load carries the time it happened;
  - the base-URL override of the build environment is a parameter.

Two behaviours of the code deserve a note:

- **Envelope without a list.** The comment at `productApi.js:8` says the
  client supports a paginated wrapper `{ data: [...] }` and a plain
  array, and the trailing `?? []` supplies an empty list when there is
  nothing. The result feeds `products.map` (`ProductList.jsx:57`), so a
  list is what the caller expects. A body of `{}` or `{ data: null }`
  nevertheless comes back as the object itself, on which `products.map`
  would throw. `ProductApi.GetProducts` models the expression as
  written; the fetch lifecycle uses the corrected decoding
  `ProductApi.NormalizeProducts`. This is logged under Findings below,
  and the render failure it avoids is listed under Left out.
- **No recovery after an error.** The error branch
  (`ProductList.jsx:55`) returns before the Refresh button is rendered,
  and the mount effect (`ProductList.jsx:35-37`) runs only once, so
  nothing can follow the error message.
  `ProductListState.ErrorIsFinal` states this.

## Model

| member | source | states |
|---|---|---|
| `Pipeline.CategoryOptionsContents` | src/components/ProductList.jsx:57 | the options start with "All"; after it every category of the loaded products appears exactly once and nothing else does |
| `Pipeline.CategoryOptionsOrder` | src/components/ProductList.jsx:57 | the categories after "All" are ordered by where each first occurs in the product list (insertion order of the `Set`) |
| `Pipeline.CategoryOptionsAllCount` | src/components/ProductList.jsx:57 | "All" is offered twice exactly when some product's category is literally "All", once otherwise |
| `Seqs.DistinctSpec` | src/components/ProductList.jsx:57 | the distinct elements of a sequence: no duplicates, nothing lost, nothing added, in first-occurrence order |
| `Pipeline.DeriveCategories` | src/components/ProductList.jsx:57 | the one-pass build with a seen-set (the way `new Set(...)` is filled) yields exactly the category options above |
| `Pipeline.FilterProducts` | src/components/ProductList.jsx:59-62 | the filtered list is an order-preserving subsequence of the products; every kept product matches; each matching product keeps its multiplicity and each non-matching one is dropped |
| `Pipeline.FilterMembers` | src/components/ProductList.jsx:59-62 | a product is in the filtered list if and only if it is loaded, its lower-cased name contains the lower-cased search term, and the category is "All" or its own |
| `Pipeline.FilterShrinks` | src/components/ProductList.jsx:59-62 | the filtered list is never longer than the loaded list |
| `Pipeline.UnfilteredShowsEverything` | src/components/ProductList.jsx:59-62 | with search term "" and category "All" the filter returns every product in original order |
| `Pipeline.SearchIgnoresCase` | src/components/ProductList.jsx:60 | two products whose names differ only in letter case, searched with two terms that differ only in letter case, in the same category, either both match or both do not |
| `Pipeline.LoweringDoesNotMatter` | src/components/ProductList.jsx:60 | lower-casing the name alone, or the search term alone, beforehand does not change whether a product matches |
| `Text.IncludesSpec` | src/components/ProductList.jsx:60 | `includes` is true exactly when the term occurs at some position of the name |
| `Text.LowerChar` | src/components/ProductList.jsx:60 | lower-casing leaves no upper-case ASCII letter and changes only upper-case ASCII letters |
| `Pipeline.VisibleProducts` | src/components/ProductList.jsx:64-66 | the table rows are a permutation of the filtered list, ordered by the comparator, stable within each price, and no more than the loaded products |
| `Pipeline.VisibleMembers` | src/components/ProductList.jsx:59-66 | a product is a table row exactly when it is loaded and matches the search and category |
| `Pipeline.UnfilteredCountIsTotal` | src/components/ProductList.jsx:149 | "Showing X / Y": X equals Y with no search term and "All" selected |
| `Pipeline.ToolsExample` | src/components/ProductList.jsx:59-66 | Widget(10, Tools), Gadget(5, Tools), Sprocket(20, Parts) with category "Tools" ascending show Gadget then Widget |
| `PriceSort.SortByPrice` | src/components/ProductList.jsx:64-66 | `[...filtered].sort(cmp)` returns a permutation of its input, ordered by the comparator, listing the products of each price in input order |
| `PriceSort.CompareIsKeyDifference` | src/components/ProductList.jsx:65 | both comparators order by one integer key (price, or minus price), and call two products equal exactly when their prices are equal |
| `PriceSort.StableSortUnique` | src/components/ProductList.jsx:64-66 | two sorted sequences with the same products of every price in the same order are equal, so a stable sort has exactly one possible result |
| `PriceSort.SortIsTheStableOrder` | src/components/ProductList.jsx:64-66 | any ordered, stable rearrangement of the input is the one the sort returns |
| `PriceSort.DescIsReversedAsc` | src/components/ProductList.jsx:64-66 | when no two prices are equal, the "desc" order is the "asc" order reversed |
| `ProductListState.ToggleSort` | src/components/ProductList.jsx:68-70 | the result is always "asc" or "desc", and it is "desc" exactly when the previous value was "asc" |
| `ProductListState.ToggleSortTwice` | src/components/ProductList.jsx:68-70 | toggling twice restores the value if and only if it was "asc" or "desc"; any other value goes to "asc" |
| `ProductListState.ClearFilters` | src/components/ProductList.jsx:72-77 | whatever the prior controls, the result is search "", category "All", sort "asc" (the mount-time controls) |
| `ProductListState.ClearFiltersIdempotent` | src/components/ProductList.jsx:72-77 | clearing twice is clearing once |
| `ProductListState.ApplyUi` | src/components/ProductList.jsx:109-133 | each control changes only its own field; toggling and clearing keep the sort direction valid |
| `Csv.ExportCsv` | src/components/ProductList.jsx:79-88 | nothing is exported for an empty table; otherwise the text starts with the header `Name,Category,Price` |
| `Csv.ExportLines` | src/components/ProductList.jsx:82-88 | with no line break inside a field, the text is the header line followed by exactly one line per row, in table order |
| `Csv.ExportRoundTrip` | src/components/ProductList.jsx:82-88 | parsing the export gives back each row's name, category and price, in order, when no name or category holds "," or a line break |
| `Csv.CommaInNameBreaksRow` | src/components/ProductList.jsx:83-87 | fields are not quoted: a comma in a name makes the row split into more than three fields, so it does not read back as a row |
| `Text.SplitJoin` | src/components/ProductList.jsx:85-88 | joining with a separator and splitting on it gives the pieces back when no piece holds the separator |
| `Text.ParseIntToString` | src/components/ProductList.jsx:83 | the decimal rendering of a price reads back as the same price |
| `ProductListState.BeginFetch` | src/components/ProductList.jsx:17-19 | starting a fetch sets refreshing and clears the error; products, loading and the timestamp stay |
| `ProductListState.FinishFetch` | src/components/ProductList.jsx:21-32 | on success the products are replaced wholesale by the corrected decoding of the body and the time is stamped; on failure the error becomes "Failed to load products" and the old products stay; either way loading and refreshing end |
| `ProductListState.Render` | src/components/ProductList.jsx:54-182 | loading takes precedence over the error and either hides the table; otherwise the table lists exactly the filtered, price-sorted products, the selector offers exactly the category options, the last-updated time is the stored one, "Showing X / Y" counts those rows against all products, Refresh is disabled exactly while refreshing and Export exactly when there are no rows |
| `ProductListState.ExportText` | src/components/ProductList.jsx:79-88 | on the table screen the export is the CSV of exactly the rows on screen, and it yields text exactly when the Export button is enabled |
| `ProductListState.Step` | src/components/ProductList.jsx:17-77 | fetch events change only the fetch state; control events change only the controls, never the products |
| `ProductListState.StepKeepsInvariant` | src/components/ProductList.jsx:17-33 | every enabled event preserves the invariant: the sort is valid; an error is the load message, with no request outstanding and not loading; while loading no products are held |
| `ProductListState.RunKeepsInvariant` | src/components/ProductList.jsx:17-33 | the invariant holds after any feasible sequence of events |
| `ProductListState.ReachableStates` | src/components/ProductList.jsx:5-33 | in every reachable state the sort direction is "asc" or "desc" and any error is "Failed to load products" |
| `ProductListState.ErrorIsFinal` | src/components/ProductList.jsx:55-125 | once a load has failed, the error message is shown and no event is enabled: no Refresh button, no controls, no request outstanding |
| `ProductListState.FetchCycle` | src/components/ProductList.jsx:17-33 | a started and finished request shows, on success, the new list (decoded by the corrected normalisation) filtered and sorted by the unchanged controls, and on failure the error message |
| `ProductListState.WhileRequestOutstanding` | src/components/ProductList.jsx:54-126 | during the first request only the loading message shows; during a later one the table stays with Refresh disabled |
| `ProductApi.BaseUrl` | src/api/productApi.js:4 | the override is used whenever it is set, even when empty; otherwise `http://localhost:5103` |
| `ProductApi.ProductsUrl` | src/api/productApi.js:7 | the request target is the base URL followed by `/api/product` |
| `ProductApi.GetProducts` | src/api/productApi.js:9 | the result is never null or undefined; it is a non-nullish `data` when present, a bare list unchanged, `[]` for a null or undefined body, and the body itself otherwise |
| `ProductApi.GetProductsListIff` | src/api/productApi.js:9 | the result is a list exactly when the body is a list, null or undefined, or its `data` is a list |
| `ProductApi.EmptyEnvelopeIsReturnedAsIs` | src/api/productApi.js:9 | `{}` and `{data: null}` come back as themselves, not as an empty list |
| `ProductApi.NormalizeProducts` | src/api/productApi.js:9 | always a product list: the envelope's list, a bare list unchanged, otherwise empty |
| `ProductApi.NormalizeAgreesOnLists` | src/api/productApi.js:9 | where the code already yields a list, the normalisation yields the same list; elsewhere it yields `[]` |
| `ApiStatus.Settle` | src/components/ApiStatus.jsx:9-14 | a settling probe sets "online" if and only if it succeeded, and "offline" if and only if it failed; with no probe outstanding nothing changes |
| `ApiStatus.StatusLeavesCheckingOnce` | src/components/ApiStatus.jsx:7-14 | the status is "checking" until the probe settles, is decided by the first outcome alone, and changes at most once |
| `ApiStatus.Indicator` | src/components/ApiStatus.jsx:19-31 | "online" maps to (green, "API Online"), "offline" to (red, "API Offline"), and every other status to (gray, "Checking API..."), each if and only if |
| `ApiStatus.HealthIgnoresOverride` | src/components/ApiStatus.jsx:4-11 | the health URL is fixed at `http://localhost:5103/health`; it matches the product client's server only when no override, or the default, is set |

## Left out

- HTTP requests, axios and Promise plumbing. A request appears only as its outcome: a response body, or a failure.
- The clock. `new Date()` and `toLocaleTimeString` are replaced by an integer time carried by the success event.
- Overlapping refreshes, where the last response wins. Refresh is disabled while a request is outstanding. A race needs a fetch started from elsewhere and is a concurrency concern. The model runs one request at a time.
- The global "/" keyboard shortcut and its listener (`ProductList.jsx:39-52`), which are DOM event handling.
- The search-box focus on Clear Filters (`ProductList.jsx:76`), which is a DOM effect.
- The Blob, object URL, anchor click and `products.csv` file name of the export. These are browser effects; only the CSV text is modelled.
- Styles, hover handlers, the "No matching products found." row and `src/App.jsx`. These are presentational; the empty-table case is covered through `shown` and the disabled Export button.
- Reading product records out of JSON. Array elements of a response are taken to be product records, as the code assumes without checking.
- The category selector offering only listed options. Any string may be selected, which covers a selection that a refresh has made stale.
- ProductListState.FinishFetch: a successful load stores the corrected decoding `ProductApi.NormalizeProducts` of the body, where `ProductList.jsx:23` stores whatever `getProducts` returned. For a body that is neither a list nor an envelope holding a list, the code stores a non-list and the next render throws at `products.map` (`ProductList.jsx:57`); the model shows an empty table instead. That crash is not modelled.
- ProductListState.FetchCycle: states the cycle over the corrected decoding, for the same reason. For a non-list body it shows an empty table, where the code's render throws.
- Text.LowerChar: only ASCII letters are case-folded. Full Unicode `toLowerCase`, including one-to-many mappings, is not modelled.
- Csv.ExportCsv: prices render as decimal integers. JavaScript's rendering of fractional prices, and of magnitudes of 10^21 and above in exponent form, is not modelled.
- PriceSort.SortByPrice: prices are integers. Floating-point prices and NaN, which would make the comparator inconsistent, are not modelled.

## Findings

| source | as written | input that shows it | evidently intended | confidence | as-written member | corrected member |
|---|---|---|---|---|---|---|
| src/api/productApi.js:9 | `response.data?.data ?? response.data ?? []` returns the body itself when the body is not nullish and its `data` is missing or null. This includes an object, a string and a number. The list view then calls `products.map` on it (`ProductList.jsx:57`). | a response body of `{}` (or `{"data": null}`) | an empty product list for any shape that is neither a list nor an envelope holding a list | medium; not executed | `ProductApi.EmptyEnvelopeIsReturnedAsIs` | `ProductApi.NormalizeProducts` |

`ProductApi.GetProducts` models the expression as written.
`ProductApi.NormalizeProducts` is the corrected version: it always
returns a product list, and the fetch lifecycle in `ProductListState`
uses it. `ProductApi.NormalizeAgreesOnLists` shows that the two agree on
every body for which the code already yields a list.
