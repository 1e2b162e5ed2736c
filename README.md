# HalalFull support chatbot: the two table lookups

The HalalFull customer-support widget (`app.py`) forwards free text to a
hosted language model. It also answers two kinds of request on its own, from
tables written into the `HalalFullChatbot` class:

- **Product search** (`handle_product_search`). The query is lower-cased. The
  product table is walked in its written order: beef, then chicken, then lamb.
  The answer is `Matching products in <category>: <item>, <item>` for the
  **first** category whose *name* contains the lowered query as a substring.
  If no name contains it, the answer is the fixed text
  `No matching products found. Try a different search term.`
- **Order tracking** (`handle_order_tracking`). This is `dict.get` on a
  two-entry order table. The key is the order number exactly as typed. Known
  orders get `{status, estimated_delivery}`. Any other number gets the
  one-field record `{status: "Order not found"}`.

The model is split into four modules:

- `Wrappers` (wrappers.dfy) holds `Option`, used for the delivery field that
  may be missing.
- `PyStr` (pystr.dfy) models the Python string built-ins these lookups use.
  `str.lower` becomes ASCII lower-casing (`Lower`). `q in s` becomes `Contains`,
  a scan proved equal to the positional definition of a substring. `sep.join`
  becomes `Join`.
- `ProductSearch` (product_search.dfy) holds the category table as a sequence
  of pairs, so its order is explicit. `FirstMatch` is the specification of the
  scan. `SearchResult` is the answer that specification gives. The method
  `HandleProductSearch` is the source's `for` loop with its early `return`,
  proved to give exactly `SearchResult` for the lowered query.
- `OrderTracking` (order_tracking.dfy) holds the order table as a `map` and
  the lookup as a function returning an `OrderRecord` datatype.

Both lookups are total. They read only constants, so calling one twice with
the same input gives the same answer, and neither can change a table.

Two details of `app.py` shape the model:

- The category order is the dict literal's insertion order: beef, chicken,
  lamb (app.py:50-54). The table is therefore a sequence, not a map.
- The not-found record has no `estimated_delivery` key (app.py:69), so that
  field is an `Option`.

## Model

| member | source | states |
|---|---|---|
| PyStr.LowerChar | app.py:57 | one character lower-cased: an ASCII capital becomes its small letter (code point plus 32), every other character is kept, and the result is never an ASCII capital |
| PyStr.Lower | app.py:57 | `query.lower()` keeps the length and lower-cases each ASCII letter, leaving every other character alone |
| PyStr.LowerIdempotent | app.py:57 | lower-casing a lowered query changes nothing |
| PyStr.LowerEqualIff | app.py:57 | two queries lower-case to the same text if and only if they differ only in ASCII letter case |
| PyStr.Contains | app.py:57 | the `in` test: the empty query is in every name, and nothing but the empty query is in the empty name |
| PyStr.ContainsIff | app.py:57 | the `in` test holds exactly when some window of the category name spells the query; the empty query is in every name |
| PyStr.ContainsShorter | app.py:57 | a name only contains queries no longer than itself |
| PyStr.MissingCharNotContains | app.py:57 | a query whose first character is absent from a name is not in that name |
| PyStr.Join | app.py:58 | `', '.join` of one item is that item; the joined text always starts with the first item |
| PyStr.JoinSnoc | app.py:58 | for every non-empty list, joining it with one more item appends the separator and that item, so the items appear in order with the separator between neighbours |
| ProductSearch.MatchLine | app.py:58 | the answer line starts with `Matching products in <category>: ` and can never equal the no-match message |
| ProductSearch.CatalogDistinct | app.py:50-54 | the category names are pairwise distinct, as dictionary keys are |
| ProductSearch.FirstMatch | app.py:56-58 | gives the position of a category containing the query with no earlier one containing it, or None exactly when no category contains it |
| ProductSearch.SearchResult | app.py:56-60 | the answer is either the fixed no-match message or the line of one of the table's categories |
| ProductSearch.HandleProductSearch | app.py:48-60 | the loop with its early return gives exactly the first-match answer for the lowered query |
| ProductSearch.SearchFirstMatch | app.py:56-58 | if category k contains the query and no earlier one does, the answer is category k's line |
| ProductSearch.SearchMatchMeans | app.py:56-58 | any answer other than the no-match message is the line of the first category containing the query |
| ProductSearch.SearchNoMatchIff | app.py:56-60 | the answer is the no-match message if and only if no category name contains the query |
| ProductSearch.LongQueryNoMatch | app.py:56-60 | the query is looked for inside the name, never the reverse, so a query longer than every name gets the no-match message |
| ProductSearch.SearchCaseInsensitive | app.py:57 | queries equal up to letter case get the same answer |
| ProductSearch.SearchLoweredQuery | app.py:57 | searching for an already lowered query gives the same answer as the original query |
| ProductSearch.CatalogLines | app.py:50-58 | the three possible answer lines spelled out, items joined by `, ` in table order |
| ProductSearch.CatalogLinesDistinct | app.py:50-58 | the three category lines differ from one another |
| ProductSearch.SearchCatalogLineIff | app.py:50-58 | on the product table, the answer is category k's line if and only if k is the first category whose name contains the query |
| ProductSearch.SearchBeef | app.py:50-58 | "beef", "Beef" and "BEEF" all give `Matching products in beef: Angus Beef Ribeye, Grass-Fed Beef Tenderloin` |
| ProductSearch.SearchChicken | app.py:50-58 | "chicken" gives the chicken line |
| ProductSearch.SearchLamb | app.py:50-58 | "Lamb" gives the lamb line |
| ProductSearch.SearchFirstCategoryWins | app.py:50-58 | "" and "e" are in "chicken" too, yet both give the beef line: the first category wins |
| ProductSearch.SearchBeefy | app.py:56-60 | "beefy" contains the name "beef" but gets the no-match message |
| ProductSearch.SearchChickens | app.py:56-60 | "chickens" is longer than every name and gets the no-match message |
| ProductSearch.SearchXyz | app.py:56-60 | "xyz" gets the no-match message |
| ProductSearch.SearchTwice | app.py:48-60 | two searches with the same query give the same answer |
| OrderTracking.StoredRecordsAreNotSentinel | app.py:64-69 | every stored record has a delivery estimate and differs from the not-found record |
| OrderTracking.HandleOrderTracking | app.py:62-69 | a delivery estimate is present exactly for "HF12345" and "HF67890"; the not-found record comes back for every other number; the two stored records are Shipped / 2-3 days and Processing / 5-7 days |
| OrderTracking.TrackingIsCaseSensitive | app.py:69 | "hf12345" and the lowered "HF67890" are not found: the order number is not normalised |
| OrderTracking.TrackUnknown | app.py:69 | "UNKNOWN" gets status "Order not found" and no delivery field |

## Left out

- `generate_response` (app.py:30-46) is one call to an external chat-completion service. Its reply is opaque, and its error path only shows a message and returns a fixed apology. It is not part of this model.
- Loading the API key from the environment, stopping when it is missing, and building the API client (app.py:7-19) are configuration and I/O.
- `main` and the Streamlit interface (app.py:71-104) are left out: the mode selector, text inputs, buttons, the "non-empty input" checks and the rendering of results. So is the "Product Search" mode, which the selector offers but no input is wired to.
- PyStr.Lower: this is ASCII lower-casing only. Python's `str.lower` also folds non-ASCII letters, such as `'É'` to `'é'`, and the model does not. This can change an answer, not only the spelling of one. U+212A KELVIN SIGN lower-cases to `"k"` in Python, so the query `"\u212a"` gets the chicken line in `app.py`, but the model gives the no-match message.
- Python rebuilds both tables on every call, and `dict.get` hands back the stored dictionary object itself. The model treats both tables as immutable constants and the record as a value, so aliasing of the returned dictionary is not modelled.
