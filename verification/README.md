# Inventory join, query and reports — a Dafny model

This project models the two scripts of a small inventory tool.

- `outputReports.py` (module `Reports`) joins three CSV lists into one dictionary of items: a
  manufacturer list (id, manufacturer, type, optional "damaged" mark), a price list and a
  service-date list. It then writes four reports:
  - the full inventory, sorted by manufacturer;
  - one inventory per item type, each sorted by item id;
  - the items past their service date, oldest first;
  - the damaged items, most expensive first.
- `manufactor.py` (module `Query`) joins the same three lists more strictly: every row must have
  the exact number of fields, and every price and date row must name a known id. It then answers
  prompt lines of the form `<manufacturer> <type>`. The answer is the most expensive in-service
  item not marked exactly "damaged" whose manufacturer and type contain the two words, ignoring
  case. It also suggests a "similar item": the most expensive in-service item not marked exactly
  "damaged" whose type
  equals the query's type word and whose manufacturer differs from the query's manufacturer word,
  both compared ignoring case. The manufacturer is compared with the query word, not with the
  chosen item.

Shared modules:

- `Base`: `Option`, `Result`, the first failing row of a list, and list filtering.
- `Text`: ASCII lower-casing, substring search, `str.split()`, and Python's string order.
- `Dates`: calendar dates and clock readings.
- `OrderedStore`: Python's insertion-ordered `dict`.
- `Sorting`: Python's stable `sorted`, specified by permutation, order and stability.
- `Join`: the joined record and the price and date passes.

Every exception that the modelled logic raises on the data is modelled as an `Err`. This covers
a short row, a row with the wrong number of fields, a price or date that does not parse, an
unknown id, a missing date or price, and an incomparable `None` price. Errors from opening and
writing files are not modelled (see "## Left out"). The conversions `float()` and
`strptime` are passed in as partial functions (`string -> Option<...>`). The clock reading
(`datetime.now()`, `datetime.today()`) is a parameter of type `Instant`: a date plus the
microseconds since midnight. A parsed service date is the midnight that starts its day, so an
item due today is past its date, and no longer in service, from the first microsecond of the day.

Three behaviours of the code are easy to misread:

- `manufactor.py:53` compares the raw damaged field with `"damaged"` exactly. A row marked
  `Damaged` therefore still shows up in query results, while `outputReports.py:29` lowers the field
  first. `Query.DamagedMarkIsCaseSensitive` states the difference.
- `manufactor.py:29` unpacks exactly four fields, so a manufacturer row without the condition column
  makes the query tool's load fail. The report tool accepts three or more fields.
- The reports are not isolated from each other. A failing past-service report stops `main` before
  the damaged report is written (`Reports.GenerateReports`).

The similar-item pool is chosen by comparing manufacturers with the query word, not with the
chosen item. So the chosen item can be suggested as its own similar item:
`Query.SimilarMayBeChosen` gives a one-item inventory where this happens.

`query_item` only reads the inventory, and two calls with the same arguments and the same clock
reading give the same result. It reads the clock itself, so two calls on either side of a service
date's midnight can differ.
In the model this holds by construction: `Query.QueryItem` is a function of the inventory,
the two words and the clock.

## Model

| member | source | states |
|---|---|---|
| `Reports.ReadItems` | outputReports.py:21-31 | loading succeeds exactly when every manufacturer row has at least three fields; otherwise it fails at the first short row; the result is a well-formed dictionary |
| `Reports.ReadItemsSpec` | outputReports.py:26-30 | the keys are the row ids in first-occurrence order; each id holds the record of its last row: manufacturer and type from that row, damaged exactly when a fourth field lowers to "damaged", price and service date absent |
| `Reports.ReadPrices` | outputReports.py:34-41 | fails exactly when some row lacks a second field or has a price `float()` rejects, even for an unknown id, and reports the first such row; on success the keys and their order are unchanged |
| `Reports.ReadPricesSpec` | outputReports.py:40-41 | a known id gets the price of its last row with all other fields unchanged; ids never named keep their records; unknown ids are skipped |
| `Reports.ReadServiceDates` | outputReports.py:44-55 | fails exactly when some row lacks a second field, and reports the first such row; on success the keys and their order are unchanged |
| `Reports.ReadServiceDatesSpec` | outputReports.py:54-55 | a known id gets the date text of its last row with all other fields unchanged; other records are untouched |
| `Reports.ConditionLabel` | outputReports.py:67-68 | the condition column is "damaged" exactly for a damaged item and empty exactly for an undamaged one |
| `Reports.FullRow` | outputReports.py:66-68 | a full-report row has the six header columns: id, manufacturer, type, price, date, and a condition cell that says "damaged" exactly when the item is damaged |
| `Reports.TypeRow` | outputReports.py:89-91 | a per-type row has five columns (id, manufacturer, price, date, condition) and no type column |
| `Reports.DamagedRow` | outputReports.py:122-124 | a damaged-report row has five columns (id, manufacturer, type, price, date) and no condition column |
| `Reports.ByManufacturerIsPreorder` | outputReports.py:71-72 | comparing manufacturers with Python's string order is total and transitive, so the sort by manufacturer is well defined |
| `Reports.ManufacturerTies` | outputReports.py:71-72 | two items tie under the manufacturer key exactly when their manufacturers are the same text |
| `Reports.FullOrder` | outputReports.py:59 | the full report order is a permutation of all items, non-decreasing by manufacturer, and items with equal manufacturers keep their dictionary order |
| `Reports.FullReport` | outputReports.py:58-68 | FullInventory.csv has the six-column header and one row per item, in full-report order |
| `Reports.FullReportCoversEveryItem` | outputReports.py:59 | every item of the dictionary is in the full report, and no id appears in two rows |
| `Reports.OfType` | outputReports.py:77-80 | the items of one exact type are exactly the items whose type is that text |
| `Reports.GroupByType` | outputReports.py:76-80 | the type grouping is a well-formed ordered dictionary keyed by type |
| `Reports.GroupByTypeKeys` | outputReports.py:76-80 | the groups are keyed by the distinct types in the order they first occur |
| `Reports.GroupByTypeValues` | outputReports.py:76-80 | each group holds exactly the items of its exact type, in dictionary order |
| `Reports.GroupByTypeSpec` | outputReports.py:76-82 | the grouping partitions the items by exact type, in first-occurrence order of types, with no empty group |
| `Reports.ByIdIsPreorder` | outputReports.py:94-95 | comparing item ids with Python's string order is total and transitive |
| `Reports.TypeOrder` | outputReports.py:83 | a per-type report order is a permutation of that type's items, all of that type, with ids non-decreasing |
| `Reports.TypeReports` | outputReports.py:82-91 | one file per distinct type, in first-occurrence order, named `<type>Inventory.csv`, with the five-column header and the type's items in id order |
| `Reports.TypeReportsPartition` | outputReports.py:76-83 | every item is in the file of its own type; no per-type file is empty; no type gets two files |
| `Reports.DateKey` | outputReports.py:111-112 | the date sort key of an item whose date parses is that parsed date |
| `Reports.ByDateIsPreorder` | outputReports.py:111-112 | comparing parsed dates chronologically is total and transitive |
| `Reports.PastServiceOrder` | outputReports.py:100-102 | the past-service order is a permutation of the past-due items, sorted by parsed date |
| `Reports.PastServiceReport` | outputReports.py:98-108 | fails exactly when some item's date is absent or does not parse, naming the first such item; otherwise PastServiceDateInventory.csv has the six-column header and the past-service rows |
| `Reports.PastServiceSpec` | outputReports.py:99-102 | the report holds exactly the items whose parsed date is strictly before today; dates are non-decreasing, and items with equal dates keep their dictionary order |
| `Reports.DamagedOrder` | outputReports.py:116-117 | the damaged order is a permutation of the damaged items, prices non-increasing, and equal prices keep their dictionary order |
| `Reports.DamagedReport` | outputReports.py:115-124 | fails exactly when two or more damaged items include one without a price; otherwise DamagedInventory.csv has the five-column header and the damaged rows |
| `Reports.DamagedSpec` | outputReports.py:127-128 | the damaged report holds exactly the damaged items; with two or more of them, all have prices and each price is at least the next one |
| `Reports.GenerateReports` | outputReports.py:141-144 | the run writes the full report and then the per-type reports; a past-service failure stops it there with that error; a damaged-report failure comes after the past-service table is written and is the incomparable-prices error; the run ends cleanly exactly when both later reports succeed, and then the last two tables are the past-service and the damaged report |
| `Query.LoadItems` | manufactor.py:28-34 | succeeds exactly when every manufacturer row has exactly four fields, otherwise fails at the first bad row; keys in first-occurrence order; each id holds its last row's text fields, and no record has a price or a date yet |
| `Query.LoadPrices` | manufactor.py:37-39 | succeeds exactly when every row has two fields, a parsable price and a known id; otherwise the first bad row raises, checked in the order: field count, then price conversion, then id lookup; keys unchanged |
| `Query.LoadDates` | manufactor.py:42-44 | the same rule as prices, for service dates |
| `Query.Load` | manufactor.py:22-44 | the load succeeds exactly when every manufacturer row has four fields and every price and date row has two fields, a parsable value and an id of the manufacturer list; otherwise the first failing pass gives the error; a successful load is a well-formed dictionary whose keys are those of the manufacturer pass |
| `Query.LoadSpec` | manufactor.py:28-44 | after loading, the ids are exactly the manufacturer ids; text fields come from the last manufacturer row, the price from the last price row naming the id, and the date from the last date row naming it; an id that no price row names has no price, and an id that no date row names has no date |
| `Query.Select` | manufactor.py:49-53 | a comprehension with a short-circuit `and` fails exactly when an item reaches the date test without a date, and names the first such item |
| `Query.QueryItem` | manufactor.py:47-54 | fails exactly when an item matching both words has no date, with the missing-date error of the first such item in dictionary order; otherwise holds exactly the items where both lowered words are substrings of the lowered fields, the date is at or after now, and the raw damaged field is not "damaged"; no id twice; the items are in dictionary order, as filtering the dictionary's items keeps them |
| `Query.Alternatives` | manufactor.py:91-95 | the similar pool holds exactly the items with a manufacturer different from the query word and a type equal to it, both ignoring case, in service and not marked "damaged", in dictionary order with no id twice; it fails exactly when such an item has no date, with the missing-date error of the first one in dictionary order |
| `Query.SortByPrice` | manufactor.py:83 | fails, naming the first item without a price, exactly when some item lacks one, even if it is alone; otherwise the result is a permutation sorted by price, most expensive first, and stable |
| `Query.Best` | manufactor.py:83-84 | the head of the price sort is defined exactly when every item has a price, is absent exactly for an empty list, and is otherwise one of the items; a failure names the first item without a price |
| `Query.BestIsFirstMostExpensive` | manufactor.py:83-84 | the head of the descending price sort is an item of the highest price, and every item before it is strictly cheaper |
| `Query.Step` | manufactor.py:63-104 | quits exactly on "q" in any case; reports invalid input exactly when the line does not split into two words; reports no match exactly when the query result is empty; answers with an item exactly when both comprehensions and both price sorts succeed and the query result is non-empty, the chosen and similar items being the heads of the two price sorts; when an exception escapes, the chosen item was shown exactly when the query and its price sort succeeded, and the error is that of the first step that raised |
| `Query.EarlierKeptCheaper` | manufactor.py:49-84 | after filtering the dictionary's items and sorting by price with `reverse=True`, every item that passes the filter and comes before the head in the dictionary is strictly cheaper than the head |
| `Query.BestOfDistinct` | manufactor.py:83-84 | in a list with no repeated id, the head of the price sort is the first item of the highest price |
| `Query.ChosenSpec` | manufactor.py:76-84 | the chosen item meets all four query conditions and is the first of the highest price among the matches; every matching item before it in the dictionary is strictly cheaper |
| `Query.SimilarSpec` | manufactor.py:91-101 | the suggestion is absent exactly when the pool is empty; otherwise it meets the pool conditions and is the first of the highest price in the pool; every pool item before it in the dictionary is strictly cheaper |
| `Query.FoundSpec` | manufactor.py:76-101 | a line answered with an item gives an item meeting all four conditions that is first of the highest price, and a suggestion that meets the pool rule and is first of the highest price in the pool |
| `Query.DamagedMarkIsCaseSensitive` | manufactor.py:53 | a row marked "Damaged" is damaged for the reports but passes the query tool's condition test |
| `Query.SimilarMayBeChosen` | manufactor.py:91-101 | with one in-service item of manufacturer "acme inc" and type "chair", the line "acme chair" is answered with that item as both the choice and the suggestion |
| `OrderedStore.Entries` | manufactor.py:49 | iterating the dictionary's items yields one pair per key, in key order, each key with its current value (also `items_dict.values()` in outputReports.py and the similar-item comprehension) |
| `OrderedStore.Put` | outputReports.py:30 | assigning a key replaces its value; existing keys keep their positions; a new key goes last |
| `OrderedStore.PutAll` | outputReports.py:28-30 | assigning a list of pairs keeps the dictionary well formed; the key set grows by exactly the assigned keys |
| `OrderedStore.PutAllKeys` | outputReports.py:28-30 | after the assignments, the keys are the old keys followed by the new ones in first-occurrence order |
| `OrderedStore.PutAllValues` | outputReports.py:28-30 | last write wins: each assigned key holds the value of its last pair, and unassigned keys keep theirs |
| `OrderedStore.PermutedEntries` | outputReports.py:59 | any rearrangement of the dictionary's items lists every key with its value, and no key twice |
| `Join.PriceKey` | outputReports.py:127-128 | the price sort key of an item that has a price is that price; the same key as `sort_by_price` at manufactor.py:109-110 |
| `Join.SetPrices` | outputReports.py:40-41 | the price pass keeps the keys and their order, and changes no field except the price |
| `Join.SetPricesSpec` | outputReports.py:40-41 | a held id named in the list gets its last listed price; other records are untouched; unknown ids are skipped |
| `Join.SetDates` | outputReports.py:54-55 | the date pass keeps the keys and their order, and changes no field except the service date |
| `Join.SetDatesSpec` | outputReports.py:54-55 | a held id named in the list gets its last listed date; other records are untouched |
| `Sorting.SortBy` | outputReports.py:59 | Python's stable sort: the result is a permutation of the input, ordered by the comparison, and each group of tied elements keeps its input order |
| `Sorting.SortByHead` | manufactor.py:83-84 | the head of a stable sort is the first input element with the least key; under a reversed comparison, the first with the greatest key |
| `Text.Lower` | manufactor.py:50-51 | lower-casing keeps the length and lowers each character on its own |
| `Text.Contains` | manufactor.py:50-51 | Python's `in` on strings holds exactly when the first string occurs at some position of the second |
| `Text.Tokens` | manufactor.py:67 | `str.split()` yields non-empty tokens that contain no whitespace |
| `Text.TokensOfWord` | manufactor.py:67 | a non-empty string without whitespace splits into itself alone |
| `Text.TokensOfSpace` | manufactor.py:67 | a string of whitespace only splits into nothing |
| `Text.TokensAtSpace` | manufactor.py:67 | splitting at a whitespace character splits the tokens there |
| `Text.StrLeMeansLexicographic` | outputReports.py:71-72 | Python's string `<=` holds exactly when the first string is a prefix of the second, or is smaller at the first position where they differ |
| `Text.StrLeTotal` | outputReports.py:71-72 | any two strings are comparable |
| `Text.StrLeTransitive` | outputReports.py:71-72 | string order is transitive |
| `Text.StrLeAntisymmetric` | outputReports.py:94-95 | two strings that are each at most the other are equal |
| `Dates.DateLeTotalOrder` | outputReports.py:111-112 | chronological order of parsed dates is total, transitive and antisymmetric |
| `Dates.ClockChecksByDay` | manufactor.py:52 | a date is past due exactly when it is before the clock's day, or is that day after midnight; it is in service exactly when it is not past due |

## Left out

- File and CSV plumbing has no decision logic and is not modelled: `load_csv`, `open`, `csv.reader` and `csv.writer`, and writing header and rows to disk. A report is modelled as a `Table` value: a file name, a header and rows of cells.
- The hard-coded input paths of both `main` functions, and creating `output_dir` when the module is imported, are filesystem details.
- `float()` and `strptime` are library parsers, passed in as `string -> Option<...>` parameters. The model does not fix which texts they accept.
- Prices are integers. Only their order and presence matter to the logic. NaN prices, float arithmetic and float formatting are left out.
- `Text.Lower`: lower-cases ASCII letters only. Python's `str.lower()` also lowers non-ASCII letters, and the model does not define how.
- Printing is left out: the prompt text, the `print` formatting of the chosen and similar items, and the `$` price format. `Query.Outcome` records what would be shown instead.
- The `input()` loop itself is left out. `Query.Step` models one line of it.
- `Query.Step`: `query_item` and the similar-item comprehension call `datetime.now()` once per item. The model uses one clock reading for a whole line, so a clock crossing midnight partway through a line is not modelled.
- `Reports.TypeReports`: the per-type file name is the item's type text followed by `Inventory.csv`, and the model does not check that it is a usable file name. A type containing a path separator, such as `laptop/tablet`, makes `open` raise, which stops the run after the full report; the model still returns that table and no failure. Types named `Full`, `Damaged` and `PastServiceDate` give a per-type file with the same name as a fixed report, and two types differing only in letter case share a file on a case-insensitive file system. In each case one file overwrites the other on disk. `Run.written` is the order of writes, not the set of files left on disk.
- `Reports.TypeOrder`: states ids as non-decreasing, which is what the sort promises. It does not state that they are strictly increasing, although the ids in the dictionary are distinct.
