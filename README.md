# Currency converter: rate table and conversion core, in Dafny

This project models the non-presentational core of a terminal currency
converter (`Currency.py`), which quotes rates from the VATcomply service.
At start-up the program builds one rate table. First it tries the
*complete-list* fetch: the service's currency list, merged with its published
rates. Every listed code without a rate gets the placeholder 0.0, and `USD`
is forced to 1.0. That table is used only if the fetch succeeded with more
than 31 entries. Otherwise the program makes the *standard* fetch: the
published rates with `USD` at 1.0. When those hold fewer than 50 entries, it
enriches them by looking up each missing code one request at a time. When that
fetch fails too, it uses a static fallback table with no date. From the table
the program converts amounts through USD, quotes pairwise rates, and groups
the codes into regions for display.

Modules:

- `Wrappers` (wrappers.dfy): `Option` and `Result`.
- `RateTable` (rate_table.dfy): the rate table types, the merge, the
  enrichment, the fallback table and the choice of source (`LoadRates`).
- `Converter` (converter.dfy): conversion, the effective rate, and the rate
  checker.
- `CodeOrder` (code_order.dfy): Python's ordering of strings, and `sorted` on a
  set of codes.
- `Regions` (regions.dfy): `categorize_currencies`.

Every network reply is an input of the model, and `None` stands for a request
that failed. The per-code lookup `/rates?base=…&symbols=…` is an oracle
`(base, code) -> Option<Rates>`. The loops that build tables and regions
(546-548, 78-86, 318-320, 332-335, and `sorted`) are methods with `while`
loops. Three of them are proved equal to a recursive function that
processes the list in the same order: the placeholder loop (`WithPlaceholders`),
the enrichment loop (`Enriched`) and the region filter (`NonEmptyRegions`).
The declarative properties are lemmas about those functions. The other two
are specified directly. The union loop (`CategorizedCodes`) returns exactly
the codes for which the predicate `InSomeRegion` holds. `sorted`
(`SortCodes`) returns a sequence that is strictly ascending under Python's
string order and holds exactly the set's codes. By `SortedUnique`, that
fixes the sequence. Rates are exact reals.

Behaviours of the code that the model keeps, some of which a reader might
not expect:

- A 0.0 (placeholder) *target* rate is not rejected. The conversion yields 0
  (`PlaceholderTargetConvertsToZero`).
- A 0.0 *source* rate is not checked either. `amount / rates[source]`
  (Currency.py:498) and `rates[target] / rates[source]` (Currency.py:428, :525)
  raise `ZeroDivisionError`, which only the handler at Currency.py:640-642
  catches, and that ends the session. The model returns `DivisionByZero`.
- A non-finite amount (`float("inf")`, `float("nan")`) is accepted by the
  code. Reals cannot express it.
- "Exactly one entry has rate 1.0" is not guaranteed, since a published rate
  may equal 1.0. What is proved is that every loaded table maps `USD` to 1.0
  (`LoadRates`).
- Enrichment happens only inside the standard fetch, never on an accepted
  complete-list table.
- The service publishes EUR-based rates, and any published `USD` entry is
  overwritten with 1.0. The model keeps this overwrite; the conversion is
  modelled as the code computes it.

## Model

| member | source | states |
|---|---|---|
| RateTable.WithAnchor | Currency.py:56-58 | The published rates, empty when the `rates` key is absent, plus `USD` at 1.0: exactly those keys, every published rate other than `USD`'s kept at its published value, and `USD` at 1.0 |
| RateTable.WithPlaceholders | Currency.py:546-548 | The placeholder loop as a fold over the list in order; its properties are stated by `RateTable.WithPlaceholdersSpec` |
| RateTable.WithPlaceholdersSpec | Currency.py:545-548 | The placeholder loop adds exactly the listed codes, gives each new one 0.0 and never overwrites an existing entry |
| RateTable.CompleteTable | Currency.py:529-552 | The complete-list fetch's result: unavailable when either request failed, otherwise the merge; its properties are stated by `RateTable.CompleteTableSpec` |
| RateTable.CompleteTableSpec | Currency.py:542-550 | The merged table covers the list, has no keys beyond published, listed and `USD`, keeps published rates except `USD`=1.0, and has 0.0 for every listed unpublished code |
| RateTable.FetchAllAvailableCurrencies | Currency.py:529-552 | The merge loop yields the complete-list table, or unavailable when either request failed |
| RateTable.Enriched | Currency.py:78-86 | The enrichment loop as a fold over the list in order; its properties are stated by `RateTable.EnrichedSpec` |
| RateTable.EnrichedSpec | Currency.py:78-88 | Enrichment never changes an entry; an added code was listed, is not the base, was quoted by its lookup and has the quoted rate; every listed non-base quoted code ends up present |
| RateTable.StandardTable | Currency.py:47-92 | The standard fetch's result; its properties are stated by `RateTable.StandardTableSpec` |
| RateTable.StandardTableSpec | Currency.py:47-92 | Standard fetch: unavailable iff short of 50 and the currency list failed; keeps every published rate other than `USD`'s at its published value, and `USD`=1.0; never adds the base; adds only when short of 50; at 50 or more, the table is the published rates |
| RateTable.GetExchangeRates | Currency.py:47-92 | The enrichment loop yields the standard table |
| RateTable.FallbackRates | Currency.py:107-167 | The static table holds `USD` at 1.0 and only positive rates |
| RateTable.LoadRates | Currency.py:562-583 | The complete-list table iff fetched with more than 31 entries; otherwise the standard table if fetched; otherwise the fallback with no date; always `USD` at 1.0 |
| Converter.Convert | Currency.py:473-501 | Rejects an unknown source, a non-number, a negative amount, an unknown target, a 0.0 source rate, each exactly when the earlier checks pass; on success, rate times source rate is the target rate and value is conserved through `USD` |
| Converter.ConvertAtEffectiveRate | Currency.py:498-525 | With `USD` at 1.0, the converted amount equals the amount times the effective rate shown at :525 |
| Converter.ConvertIdentity | Currency.py:498-501 | Converting a code with a non-zero rate to itself returns the amount at rate 1 |
| Converter.ConvertRoundTrip | Currency.py:498-501 | Converting between two positive-rate codes and back returns the starting amount |
| Converter.PlaceholderTargetConvertsToZero | Currency.py:492-501 | A 0.0 target rate is accepted and yields 0 at rate 0 |
| Converter.ConvertExample | Currency.py:498-525 | 100 USD are 94 EUR at 0.94, and 94 EUR are 100 USD, with USD 1.0, EUR 0.94, JPY 149.30 |
| Converter.CheckExchangeRate | Currency.py:408-431 | Unknown base rejected; 0.0 base rate fails iff some target is supported; otherwise one quote per target in order, supported iff in the table, with rate times base rate equal to the target rate |
| Converter.QuoteMatchesConversion | Currency.py:428-428 | Each quoted rate is the converter's effective rate, and with `USD` at 1.0 it is what one base unit converts to |
| CodeOrder.Less | Currency.py:328-328 | Python's `<` on `str`, the order `sorted` uses; that it is a strict total order is stated by the three lemmas below |
| CodeOrder.LessIrreflexive | Currency.py:328-328 | No string sorts before itself |
| CodeOrder.LessTransitive | Currency.py:328-328 | The string order is transitive |
| CodeOrder.LessTotal | Currency.py:328-328 | Of two different strings, one sorts before the other |
| CodeOrder.Insert | Currency.py:328-328 | Inserting into a strictly sorted sequence keeps it strictly sorted and adds exactly the new element |
| CodeOrder.SortedUnique | Currency.py:328-328 | Two strictly sorted sequences with the same elements are equal |
| CodeOrder.SortCodes | Currency.py:328-328 | The result is strictly ascending and holds exactly the set's codes |
| Regions.CategorizedCodes | Currency.py:317-320 | The set holds exactly the codes some region lists |
| Regions.FixedRegions | Currency.py:302-315 | The seven region names and code lists, in display order; `Regions.FixedRegionsWellNamed` states that the names are distinct and none is "Others" |
| Regions.FixedRegionsWellNamed | Currency.py:302-328 | The fixed region names are distinct dictionary keys, and "Others" is not one of them |
| Regions.Available | Currency.py:333-333 | The list comprehension keeping a region's codes that the table has; its properties are stated by `Regions.AvailableSpec` |
| Regions.AvailableSpec | Currency.py:333-333 | A filtered region holds exactly its listed codes that the table has, each as often as the list repeats it, as a subsequence of the fixed list |
| Regions.NonEmptyRegions | Currency.py:331-335 | The filtering loop as a fold over the regions in order; its properties are stated by `Regions.NonEmptyRegionsSpec` |
| Regions.NonEmptyRegionsSpec | Currency.py:330-335 | Every kept region is non-empty and is a fixed region filtered to the table; together they cover exactly the table's categorised codes |
| Regions.FilterRegions | Currency.py:331-335 | The filtering loop yields the non-empty filtered regions in order |
| Regions.CategorizedAsUnique | Currency.py:318-328 | The categorisation is determined by the regions and the table's codes, whatever the set iteration order |
| Regions.CategorizeBy | Currency.py:299-337 | For region lists with distinct names other than "Others": named regions (filtered, non-empty, in order), then `Others` iff some code is uncategorised, holding exactly those codes sorted and last; no region empty; regions cover exactly the table's codes |
| Regions.Categorize | Currency.py:299-337 | The same categorisation over the seven fixed region lists |

## Left out

- HTTP requests, timeouts, `raise_for_status` and JSON decoding. Each reply is an input, `None` for a failed request.
- Exceptions that the fetches do not catch. Examples: a `rates` value that is not an object, or a non-dict body in `get_exchange_rates`. These would end the program, and the model assumes well-shaped bodies.
- The error message text returned on a failed fetch. It is only printed, so it is not modelled.
- `get_user_location`, `get_currency_info` and `get_all_currency_symbols`. They are network-only or static display data, and none affects the table or the arithmetic.
- Terminal output: screen clearing, banners, colours, `time.sleep`, the menu and its loop, and the `KeyboardInterrupt` handler.
- Interactive prompts, including `.upper()`, the rule that empty input means the default code, and the `split(",")`/`strip()` of target lists. Codes arrive already normalised, and an amount arrives as `None` when it is not a number.
- Floating-point rounding, non-finite amounts, and the `:.2f`/`:.4f` formatting. Reals are exact, so the identity and round-trip laws hold exactly.
- The per-code lookup is a function of (base, code), so one code always gets the same answer. The service's codes are dictionary keys and are never looked up twice.
