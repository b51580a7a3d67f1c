# Stock screener core, modelled in Dafny

The stock screener keeps, for every listed Nordic company, the current value
of each configured stock property (P/E ratio, shares outstanding, ...) and a
dated history of those values. This project models its core:

- **Value extraction** (`extractor.dfy`, `converter.dfy`). `Extractor.extract`
  fetches a property's page for a company through a one-page cache. It finds
  the text and converts it with the property's conversion expression, which
  can use the `USD` and `SSI` helpers. It then upserts the company's current
  value and appends a history entry only when the value changed.
- **Company import** (`symbols.dfy`). `SymbolsClient.load_symbols` reads the
  provider's `company` elements, skips incomplete ones and finds or creates
  each sector by name. It then refreshes every company with the record's
  symbol, or creates one.
- **Search** (`search.dfy`). The search query is modelled by what it means
  over the tables, not by its SQL text:
  - a company's joined rows are counted when they satisfy one of the min/max
    criteria;
  - a company is listed when its count reaches the number of criteria and it
    passes the sector and exchange filters;
  - the list is ordered by count and capped at 25.

  `query` then lines up each listed company's values under the requested
  headers.
- **Search form** (`forms.dfy`). `find_minmax_criteria` collects the dynamic
  `min[N]` / `max[N]` fields into one criterion per property. `to_criteria`
  lists those criteria, and `load_exchanges` builds the exchange drop-down.
- **Distribution graph** (`graph.dfy`). `create_data` cuts a property's value
  range into equal buckets and counts each bucket. `create_graph_url` turns
  the counts into chart parameters.
- **Records** (`models.dfy`). This file holds the choice lists, the records,
  the effective ticker (`get_reuters_symbol`) and the database object: one
  table per record kind, plus the next free id of each table.

Shared helpers:

- `text.dfy` holds the string functions: strip, decimal parsing, replace,
  join and split.
- `wrappers.dfy` holds `Option`.

Modelling conventions:

- Python's `None` and raised exceptions become `Option` / outcome datatypes.
  Decimals become exact `real`s.
- The network, the XML/HTML parsers and today's date are parameters.
- The database is a Dafny class. Each state-changing operation is a method
  proved equal to a pure specification function (`Store`/`ExtractFrom`,
  `Catalog`/`ImportOne`, `QuerySpec`, `Collect`, `Buckets`). The properties
  are proved as lemmas about those functions.

Behaviours of the code that this model keeps as written:

- Results come out fewest matches first (`order by number`, with no `desc`).
  The comment at `stockscreener/search/search.py:8` says the best matches go
  on top; the model follows the code.
- Both ends of a bucket are inclusive, so a value on a shared boundary is
  counted in both neighbouring buckets. `Graph.CountInShared` states this.
- Two criteria on the same property do not inflate a company's count; they
  undercount it. Each joined row is counted once, however many OR-ed criteria
  it satisfies, so such a company falls short of the threshold.
  `Search.DuplicateCriteriaUndercount` exhibits it.

## Model

| member | source | states |
|---|---|---|
| Converter.UsdToValue | stockscreener/search/extractor.py:25-37 | `None` maps to `None` and nothing else does; the text is stripped and exactly one leading `$` is removed, and any other stripped text passes through |
| Converter.UsdRemovesOneDollar | stockscreener/search/extractor.py:34-35 | `$x` gives `x`, and `$$x` keeps the second dollar sign |
| Converter.UsdPlainAmount | stockscreener/search/extractor.py:36-37 | stripped text without a `$` is returned unchanged |
| Converter.NumeralPrefix | stockscreener/search/extractor.py:55 | the greedy `[0-9.,]+` group: a prefix of the text made only of digits, points and commas, and stopping at the first other character |
| Converter.MatchSsi | stockscreener/search/extractor.py:55 | when the pattern matches, the numeral group is a non-empty prefix of the text and the unit is one of k/m/g in either case |
| Converter.MatchSsiOf | stockscreener/search/extractor.py:55 | a numeral, any run of spaces and then a unit letter match, with exactly that numeral and unit as the groups, whatever follows |
| Converter.ConvertSsiUnits | stockscreener/search/extractor.py:39-62 | text that does not match is returned unchanged as a string; a match gives a decimal, or the decimal constructor's exception |
| Converter.SsiScales | stockscreener/search/extractor.py:46-62 | a `[0-9.,]+` numeral, blanks and a unit letter, whatever follows: the numeral without its commas is parsed as a decimal and multiplied by 1000, 10^6 or 10^9; the conversion fails when that text is no decimal |
| Converter.SsiGroupedScales | stockscreener/search/extractor.py:46-62 | a whole number with thousands separators converts to its digit value times the unit's factor |
| Text.ParsePointed | stockscreener/search/extractor.py:62 | a numeral with a decimal point (`19123.20` once its commas are gone) parses to its whole part plus its fraction |
| Text.RemoveCommasAppend | stockscreener/search/extractor.py:62 | removing commas from a concatenation removes them from each part |
| Converter.SsiTenMega | stockscreener/search/tests.py:752-761 | `SSI('10M')` is 10000000 |
| Converter.SsiGroupedKilo | stockscreener/search/extractor.py:44-62 | `SSI('1,234 k')` is 1234000: the separator is dropped and the blank skipped |
| Converter.SsiWithoutUnit | stockscreener/search/extractor.py:57-58 | without a unit letter, `5` and `1,234` come back unchanged as text |
| Converter.Repeat | stockscreener/search/extractor.py:157 | Python's `s * n` is n times as long as `s`, and empty when `n <= 0` |
| Converter.ToDecimal | stockscreener/search/extractor.py:159-165 | a Decimal is kept, an int becomes its value, `None` gives no value, and other values go through text with commas removed |
| Converter.NoneIsNoDecimal | stockscreener/search/extractor.py:163-166 | `str(None)` with commas removed is no decimal, so a `None` result converts to nothing |
| Converter.ExecuteConverter | stockscreener/search/extractor.py:149-165 | the conversion raises exactly when evaluating the expression raises; otherwise it gives the decimal tail of the value |
| Converter.ConvertGroupedNumeral | stockscreener/search/extractor.py:155-163 | with the expression `x`, a numeral with thousands separators converts to the value of its digits |
| Converter.ConvertPlainTen | stockscreener/search/tests.py:752-756 | with the expression `x`, the text `10` converts to 10 |
| Converter.EvalSsiOfText | stockscreener/search/extractor.py:151-157 | the expression `SSI(x)` evaluates to `convert_ssi_units` of the scraped text |
| Converter.ExecuteKeepsDecimal | stockscreener/search/extractor.py:160-161 | an expression yielding a Decimal converts to exactly that number |
| Converter.ConvertSsiTen | stockscreener/search/tests.py:757-761 | `SSI(x)` on `10M` converts to 10000000 |
| Converter.ConvertLiteral | stockscreener/search/tests.py:785-800 | the expression `101` converts to 101, whatever the page text |
| Models.Codes | stockscreener/search/models.py:25-32 | the codes of a choice list, in order and one per choice |
| Models.SizeCodes | stockscreener/search/models.py:25-27 | the size codes are exactly L, M and S |
| Models.ExchangeCodes | stockscreener/search/models.py:29-32 | the exchange codes are exactly CSE, STO, HEL and ISE |
| Models.EffectiveSymbol | stockscreener/search/models.py:47-51 | the correction whenever one is set, even an empty one; the guess otherwise |
| Models.CorrectionOverridesGuess | stockscreener/search/models.py:47-53 | setting a correction overrides the guess, an empty one included, and clearing it restores the guess |
| Models.FetchUrlWithoutPlaceholder | stockscreener/search/extractor.py:85 | a URL without `SYMBOL` is fetched as it is |
| Models.FetchUrlFillsSymbol | stockscreener/search/extractor.py:82-85 | a URL with one `SYMBOL` gets the company's effective ticker in its place |
| Models.Database.constructor | stockscreener/search/models.py:72-94 | an empty database with the given properties satisfies the table invariants: unique ids, unique sector names, one value per pair, and every history entry belonging to a live value |
| Extraction.PairIndex | stockscreener/search/extractor.py:105-106 | the lookup finds the first live value of the (property, company) pair |
| Extraction.PairsUniqueCount | stockscreener/search/extractor.py:104-114 | with one live value per pair, the lookup never finds two |
| Extraction.OnlyPairAt | stockscreener/search/extractor.py:105-106 | with one live value per pair, the row found is the only one for that pair |
| Extraction.HistoryLinkedGrows | stockscreener/search/extractor.py:103-114 | the history stays attached to live values when every value keeps its id and rows may be added |
| Extraction.UpsertExisting | stockscreener/search/extractor.py:104-107 | a pair with a live value gets that row's value replaced in place: the saved row is the old row (same id, company and property) with the new value, no row is added, the id counter is unchanged, other pairs' rows are unchanged, and the tables stay valid |
| Extraction.UpsertNew | stockscreener/search/extractor.py:109-114 | a pair without a live value gets exactly one row appended, whose id is the next id, and the id counter moves on by one; the tables stay valid |
| Extraction.UpsertSavesOne | stockscreener/search/extractor.py:103-114 | on valid tables the upsert succeeds, and afterwards the pair has exactly one live value, holding the new value. A row is added only when the pair had none, no other row changes, the history is untouched and the tables stay valid |
| Extraction.UpsertAgainAddsNothing | stockscreener/search/extractor.py:103-114 | upserting the same pair again never adds a row |
| Extraction.Newest | stockscreener/search/extractor.py:117 | the newest entry of a value, as the `-historical_date` ordering puts it first: it belongs to the value and has the latest date, and no later entry of the value has the same date. `None` exactly when the value has no history |
| Extraction.RecordHistoryAppends | stockscreener/search/extractor.py:116-125 | the history is append-only and grows by at most one entry. It grows exactly when the value had no history or its newest entry differs, and the new entry is dated today |
| Extraction.NewestDetermined | stockscreener/search/extractor.py:117 | when the value's entries have distinct dates, the newest is the entry with the latest date, whatever breaks ties |
| Extraction.RecordHistoryApart | stockscreener/search/extractor.py:119-125 | recording on a day later than every entry of the value keeps the value's dates distinct |
| Extraction.RecordHistoryDedup | stockscreener/search/extractor.py:119-125 | recording the same value again, with no entry dated later, writes nothing |
| Extraction.RecordHistoryOthers | stockscreener/search/extractor.py:117-125 | recording for one value leaves the newest entry of every other value unchanged |
| Extraction.NoWriteOnMiss | stockscreener/search/extractor.py:93-101 | when the path finds nothing the outcome is `None`; a raising conversion raises, and a conversion to `None` gives `None`; when nothing is saved the tables are unchanged |
| Extraction.ExtractSaves | stockscreener/search/extractor.py:93-127 | a converted value on valid tables is saved. The pair then has one live value holding it, the tables stay valid, and the history is the one `RecordHistory` gives |
| Extraction.ExtractTwiceSameValue | stockscreener/search/tests.py:785-800 | extracting the same value twice leaves the store exactly as after the first extraction: no new value row and no new history entry |
| Extraction.ExtractKeepsValid | stockscreener/search/extractor.py:93-127 | an extraction keeps the value and history tables valid, whatever it ends in |
| Extraction.Extractor.constructor | stockscreener/search/extractor.py:77-78 | the cache starts empty |
| Extraction.Extractor.Fetch | stockscreener/search/extractor.py:84-91 | the same URL as last time returns the cached page without downloading; any other URL is downloaded and becomes the cached page. A download that raises leaves the cache as it was |
| Extraction.Extractor.Extract | stockscreener/search/extractor.py:80-127 | the same URL reuses the cached page without downloading; a new URL is downloaded and cached; a failed download changes neither the cache nor the tables. Otherwise the value and history tables become what `ExtractFrom` gives, the other tables are unchanged, and validity is kept |
| Symbols.ElemValueFirst | stockscreener/search/extractor.py:272-281 | `None` exactly when no descendant has the tag; otherwise the first such element's text nodes, joined and stripped |
| Symbols.SizeMap | stockscreener/search/extractor.py:175 | every mapped size is a size code of the company model |
| Symbols.SizeMapExact | stockscreener/search/extractor.py:175 | exactly LARGE, MID and SMALL map, to L, M and S; every size code is reached, and anything else is a `KeyError` |
| Symbols.NamedAtMostOnce | stockscreener/search/extractor.py:265-266 | with unique sector names, a name is found at most once |
| Symbols.SectorForFindsOrCreates | stockscreener/search/extractor.py:260-270 | on a valid catalog the lookup succeeds and returns a sector with that name. It changes nothing when one exists, and otherwise adds exactly that sector with the next id; the catalog stays valid |
| Symbols.SectorForIdempotent | stockscreener/search/extractor.py:260-270 | a second lookup of the same name creates nothing and returns the same sector |
| Symbols.SectorForExisting | stockscreener/search/extractor.py:265-266 | with unique names, a name some sector holds finds exactly that sector and changes nothing |
| Symbols.WithSymbol | stockscreener/search/extractor.py:237 | the positions of exactly the companies with the symbol, in table order |
| Symbols.WithSymbolNone | stockscreener/search/extractor.py:237-240 | an unlisted symbol finds no company |
| Symbols.RefreshAll | stockscreener/search/extractor.py:242-250 | the refresh keeps the number of companies |
| Symbols.SkipsIncomplete | stockscreener/search/extractor.py:225-229 | an element missing any of the eight fields changes nothing and raises nothing |
| Symbols.StoreRecordRefreshes | stockscreener/search/extractor.py:240-250 | for a listed symbol, every company with it is refreshed from the record and none is added; no other company changes and ids stay unique |
| Symbols.StoreRecordCreates | stockscreener/search/extractor.py:252-258 | for a new symbol, exactly one company is appended, with the next id and the record's fields, and ids stay unique |
| Symbols.StoreRecordValid | stockscreener/search/extractor.py:239-258 | storing a record keeps the catalog valid |
| Symbols.StoreRecordIdempotent | stockscreener/search/extractor.py:239-258 | storing the same record twice is the same as storing it once |
| Symbols.RefreshAllTwice | stockscreener/search/extractor.py:242-250 | refreshing twice with the same record is refreshing once |
| Symbols.RefreshAllNew | stockscreener/search/extractor.py:252-258 | a company just created from a record is not changed by refreshing it with that record |
| Symbols.RefreshAllKeepsIds | stockscreener/search/extractor.py:242-250 | refreshing changes no id, so unique ids stay unique |
| Symbols.SectorForSectorsOnly | stockscreener/search/extractor.py:265-266 | the sector lookup depends only on the sector table |
| Symbols.ImportOneEffect | stockscreener/search/extractor.py:213-258 | a complete record with a known size finds or creates its sector, stores the companies as `StoreRecord` says, raises nothing and keeps the catalog valid |
| Symbols.UnknownSizeRaises | stockscreener/search/extractor.py:234-258 | an unknown size raises after the sector has been found or created, and no company changes |
| Symbols.ImportOneIdempotent | stockscreener/search/extractor.py:213-258 | importing the same element twice leaves the tables as the first import left them |
| Symbols.ImportOneValid | stockscreener/search/extractor.py:213-258 | one import keeps the catalog valid, whether or not it raises |
| Symbols.ImportAllValid | stockscreener/search/extractor.py:204-258 | a whole import keeps the catalog valid, whatever the elements |
| Symbols.ImportAllStops | stockscreener/search/extractor.py:204-258 | once an element raises, the later elements are not processed |
| Symbols.LoadSymbols | stockscreener/search/extractor.py:204-258 | the sector and company tables become what `ImportAll` gives, and the raise flag is the one it gives; validity is kept and the value tables are unchanged |
| Symbols.ImportElement | stockscreener/search/extractor.py:215-258 | one loop iteration makes the tables what `ImportOne` gives |
| Symbols.RefreshListed | stockscreener/search/extractor.py:240-250 | the update loop refreshes exactly the listed companies, as `RefreshAll` says, and touches nothing else |
| Symbols.RefreshedAtListed | stockscreener/search/extractor.py:237-250 | refreshing exactly the positions the symbol query lists is refreshing every company with the symbol |
| Search.CriterionBounds | stockscreener/search/search.py:59-75 | without bounds a criterion only asks for its property; each bound adds its inclusive inequality; a null row matches nothing |
| Search.Tally | stockscreener/search/search.py:10-21 | a company's count never exceeds its number of joined rows |
| Search.PropertyById | stockscreener/search/search.py:131 | the property with the id, or `None` exactly when there is none |
| Search.ValuesOf | stockscreener/search/search.py:136 | exactly the company's values |
| Search.ValuesOfMultiset | stockscreener/search/search.py:136 | each value of the company occurs as often as in the table, any other value not at all |
| Search.RowsOf | stockscreener/search/search.py:13-15 | the outer join gives every company at least one row |
| Search.FiltersOnlyWhenNotBlank | stockscreener/search/search.py:77-93 | blank sector or exchange text adds no constraint; other exchange text constrains by equality, and numeric sector text by the sector id |
| Search.TalliesSpec | stockscreener/search/search.py:10-21 | every entry is a qualifying company with its count, and every qualifying company is listed |
| Search.InsertSorted | stockscreener/search/search.py:22 | insertion keeps the counts ascending and adds exactly the one entry |
| Search.SortByCountSpec | stockscreener/search/search.py:22 | the ordering sorts by count, ascending, and is a permutation |
| Search.RankedSpec | stockscreener/search/search.py:22-23 | exactly `min(n, 25)` entries of the `n` given, ascending, a sub-multiset of the input; all are kept when there are at most 25; none left out has a smaller count than one kept |
| Search.RankedFromInput | stockscreener/search/search.py:22-23 | every ranked entry is one of the input's |
| Search.RankedDropsLarger | stockscreener/search/search.py:22-23 | an entry cut by the limit has a count no smaller than any kept entry |
| Search.SearchIdsBound | stockscreener/search/search.py:23 | the search never lists more than 25 companies |
| Search.SearchIdsCut | stockscreener/search/search.py:10-24 | the search lists exactly `min(n, 25)` of the `n` qualifying companies, each as often as it qualifies, and none left out has fewer matches than one listed |
| Search.SearchIdsSpec | stockscreener/search/search.py:10-24 | for a usable sector filter the search lists at most 25 companies, ascending by count, each qualifying with its count; when at most 25 qualify, all of them are listed |
| Search.TallyIsMatchCount | stockscreener/search/search.py:112-117 | with criteria, a company's count is the number of its rows satisfying some criterion |
| Search.MatchCountSplit | stockscreener/search/search.py:115 | a criterion on a property no other criterion names adds exactly the rows it matches |
| Search.MatchCountOne | stockscreener/search/search.py:115 | rows with distinct properties match one criterion at most once |
| Search.MatchCountIsSatisfied | stockscreener/search/search.py:115-117 | with distinct criteria and distinct row properties, the number of matching rows is the number of satisfied criteria |
| Search.SatisfiedAll | stockscreener/search/search.py:21 | all criteria are satisfied exactly when as many as there are criteria are |
| Search.CountingIsConjunction | stockscreener/search/search.py:10-21 | for distinct criteria and rows, the count reaches the threshold exactly when every criterion is met by one of the rows |
| Search.RowsDistinct | stockscreener/search/search.py:13-15 | with one live value per pair, a company's rows name each property at most once |
| Search.ValuesOfDistinct | stockscreener/search/search.py:136 | with one live value per pair, a company's values have distinct properties |
| Search.QualifiesIffAllMet | stockscreener/search/search.py:10-21 | with distinct criteria on valid tables, a company is listed exactly when it passes the filters and every criterion is met by one of its values |
| Search.NoCriteriaListsAll | stockscreener/search/search.py:112-113 | without criteria, every row counts and every company passing the filters qualifies |
| Search.TallyAll | stockscreener/search/search.py:112-113 | without criteria the count is the number of rows |
| Search.DuplicateCriteriaUndercount | stockscreener/search/search.py:112-117 | two criteria on one property, both met by the company's single value, leave its count one short of the threshold |
| Search.CriteriaHeaders | stockscreener/search/search.py:129-131 | one header per criterion, in order, each the property with that id; fails exactly when some criterion's property is missing |
| Search.CompanyById | stockscreener/search/search.py:135 | the company with the id, or `None` exactly when there is none |
| Search.ValueMap | stockscreener/search/search.py:136-139 | the map's keys are exactly the properties of the values |
| Search.ValueMapDistinct | stockscreener/search/search.py:137-139 | with one value per property, the map gives each value under its own property |
| Search.Aligned | stockscreener/search/search.py:141-146 | one entry per header |
| Search.AlignedValues | stockscreener/search/search.py:141-146 | with one value per pair, a company's entry under a header is its value for that property, and `None` exactly when it has none |
| Search.ResultsFor | stockscreener/search/search.py:133-150 | one result per listed id |
| Search.ResultsForSpec | stockscreener/search/search.py:133-150 | the results fail exactly when some listed id has no company. Otherwise result k is that company, with one value per header taken from its value map |
| Search.ResultsForFails | stockscreener/search/search.py:133-150 | building the results fails exactly when some listed id has no company |
| Search.ResultsForEntries | stockscreener/search/search.py:133-150 | when the results exist, entry k is the result for the k-th listed id |
| Search.RaisedAfter | stockscreener/search/search.py:135 | a missing company makes the whole query fail |
| Search.Query | stockscreener/search/search.py:95-152 | the outcome is the search, then the headers, then one result per listed company; never more than 25 results |
| Search.BuildResults | stockscreener/search/search.py:133-150 | the result loop builds exactly `ResultsFor` |
| Search.BuildValueMap | stockscreener/search/search.py:137-139 | the `vmap` loop builds exactly `ValueMap`, where a later value overwrites an earlier one |
| Search.AlignRow | stockscreener/search/search.py:141-146 | the header loop builds exactly `Aligned` |
| Text.DigitPrefixStops | stockscreener/search/forms.py:72 | `\d+` takes exactly the digits before the first non-digit |
| Forms.ParseKeyMatches | stockscreener/search/forms.py:72-75 | `min[N]` and `max[N]`, followed by anything, yield the kind and the integer N |
| Forms.ParseKeyOnlyMatches | stockscreener/search/forms.py:72-73 | only keys of that form yield anything |
| Forms.ToValue | stockscreener/search/forms.py:84-95 | `None` and blank text give no bound, an empty list raises, and other text is parsed as a decimal, raising when it is no number |
| Forms.ToValueFirst | stockscreener/search/forms.py:88-89 | a list stands for its first item |
| Forms.SetBound | stockscreener/search/forms.py:78-81 | sets the named bound and keeps the property and the other bound |
| Forms.CollectRaises | stockscreener/search/forms.py:71-81 | collecting fails exactly when some bound field cannot be parsed |
| Forms.CollectKeys | stockscreener/search/forms.py:71-82 | the criteria are keyed by their own property id, one per id that some field names, and no others |
| Forms.CollectLastWins | stockscreener/search/forms.py:76-81 | each bound holds the value of the last field naming it, so `min[N]` and `max[N]` merge |
| Forms.CollectUnnamed | stockscreener/search/forms.py:76-81 | a bound no field names stays unset |
| Forms.ToValueParsed | stockscreener/search/forms.py:94-95 | text that is a decimal gives that decimal as the bound |
| Forms.KeyMin1 | stockscreener/search/tests.py:357-374 | `min[1]` is the lower bound of property 1 |
| Forms.KeyMax1 | stockscreener/search/tests.py:357-374 | `max[1]` is the upper bound of property 1 |
| Forms.KeyMin10 | stockscreener/search/tests.py:357-374 | `min[10]` is the lower bound of property 10 |
| Forms.KeySector | stockscreener/search/tests.py:357-374 | `sector` is not a bound field |
| Forms.MergeFour | stockscreener/search/forms.py:71-82 | an ignored field, both bounds of one id and a lower bound of another give two criteria with exactly those bounds |
| Forms.MergeThree | stockscreener/search/forms.py:71-82 | an ignored field and both bounds of one id give one criterion with both bounds |
| Forms.MergeTwo | stockscreener/search/forms.py:71-82 | an ignored field and a lower bound give one criterion with only that bound |
| Forms.CollectMerges | stockscreener/search/tests.py:357-374 | the test form gives two criteria: property 1 with both bounds, property 10 with its lower bound |
| Forms.LoadExchanges | stockscreener/search/forms.py:24-32 | the placeholder first, then the four exchanges in order |
| Forms.PlaceholderSelectsNothing | stockscreener/search/forms.py:31 | the placeholder's code is no exchange, and the search ignores it |
| Forms.SearchForm.constructor | stockscreener/search/forms.py:63 | no criteria are parsed yet |
| Forms.SearchForm.FindMinMaxCriteria | stockscreener/search/forms.py:65-82 | the form's criteria become `Collect(data)`, replacing the old ones; when a value raises, the old criteria stay |
| Forms.SearchForm.ToCriteria | stockscreener/search/forms.py:97-105 | nothing before parsing. Afterwards, every parsed criterion exactly once, as stored: one per property id, none missing |
| Graph.ValuesFor | stockscreener/search/DistrGraph.py:21 | exactly the stored values of the property |
| Graph.ValuesForCount | stockscreener/search/DistrGraph.py:44-46 | counting the property's values in a range counts the value rows of the property inside it, duplicates included |
| Graph.MinOf | stockscreener/search/DistrGraph.py:23 | a value of the list that is no larger than any other |
| Graph.MaxOf | stockscreener/search/DistrGraph.py:24 | a value of the list that is no smaller than any other |
| Graph.CountIn | stockscreener/search/DistrGraph.py:44-46 | the count never exceeds the number of values |
| Graph.CountInAllOrNone | stockscreener/search/DistrGraph.py:44-46 | a range holding every value counts them all; a range holding none counts nothing |
| Graph.CountInShared | stockscreener/search/DistrGraph.py:41-46 | neighbouring buckets count a value on their shared end in both |
| Graph.Buckets | stockscreener/search/DistrGraph.py:39 | `x_size` buckets, or none for a negative size |
| Graph.BucketsTile | stockscreener/search/DistrGraph.py:27-61 | the first bucket starts at the minimum and each ends one width after its start. Each next bucket starts where the previous one ended, and the last ends at the maximum |
| Graph.BucketsCover | stockscreener/search/DistrGraph.py:23-61 | every value lies in some bucket |
| Graph.CreateData | stockscreener/search/DistrGraph.py:18-64 | fails exactly when the property has no values or `x_size` is 0. Otherwise the buckets are `Buckets`, with `y_min`/`y_max` the smallest and largest bucket counts, or `None` when there are no buckets |
| Graph.CountInAppend | stockscreener/search/DistrGraph.py:44-46 | counting a concatenation counts both parts |
| Graph.ThousandsRange | stockscreener/search/tests.py:620-629 | the test's values range from 0 to 9000 |
| Graph.OneBucket | stockscreener/search/tests.py:644-652 | one bucket, from 0 to 9000, holds all ten values |
| Graph.TwoBuckets | stockscreener/search/tests.py:654-662 | two buckets hold five values each |
| Graph.HalfCount | stockscreener/search/tests.py:654-662 | each half of the test's range, 0 to 4500 and 4500 to 9000, holds five of the values |
| Graph.BucketsRotate | stockscreener/search/DistrGraph.py:21-61 | moving the first value to the end leaves every bucket as it was |
| Graph.SavedOrder | stockscreener/search/tests.py:620-672 | with the values in the order the test saves them (1000 to 9000, then 0), one, two and ten buckets hold ten, five each and one each |
| Graph.TenBuckets | stockscreener/search/tests.py:664-672 | ten buckets hold one value each |
| Graph.CountTexts | stockscreener/search/DistrGraph.py:71 | one text per bucket |
| Graph.Counts | stockscreener/search/DistrGraph.py:71 | one count per bucket |
| Graph.NatTextsRoundTrip | stockscreener/search/DistrGraph.py:71-72 | comma-joined decimal numerals read back as the same numbers |
| Graph.ChartDataRoundTrip | stockscreener/search/DistrGraph.py:66-82 | `chd` is `t:` followed by text that reads back as every bucket count, in bucket order; `chds` reads back as `y_min,y_max` |
| Graph.ChartExample | stockscreener/search/tests.py:570-587 | the test's chart has `chs` `220x75`, `chd` `t:10,5,0,4,10` and `chds` `0,10` |
| Graph.ChartCountsText | stockscreener/search/tests.py:570-587 | the test's counts join to `10,5,0,4,10` |
| Text.NatToStringRoundTrip | stockscreener/search/DistrGraph.py:71-72 | `str` of a natural number parses back to that number |
| Text.ParseBlank | stockscreener/search/forms.py:92-93 | blank text is not a decimal |
| Text.NoLiteralStart | stockscreener/search/extractor.py:163 | text starting with no digit, point or sign is not a decimal literal |
| Text.DigitsSnoc | stockscreener/search/extractor.py:163 | one more digit on the right gives ten times the value plus the digit |
| Text.ReplaceAbsent | stockscreener/search/extractor.py:85 | `str.replace` with an absent pattern changes nothing |
| Text.ReplaceFirst | stockscreener/search/extractor.py:85 | `str.replace` puts the replacement at the first occurrence |
| Text.SplitJoin | stockscreener/search/DistrGraph.py:71 | splitting comma-joined pieces without commas gives the pieces back |

## Left out

- Downloading pages and the provider document (`urllib2`, digest
  authentication) is not modelled. The downloader and the provider's elements
  are parameters, and a failed download is an outcome.
- Parsing HTML and evaluating XPath (`execute_xpath`) is a parameter
  `findText`. Parsing XML with `minidom` is replaced by a given list of
  elements; each element is a sequence of tagged fields with their text
  nodes. An element's child nodes that are themselves elements are not
  modelled.
- The conversion expression is arbitrary Python for `eval`. The model takes
  a small expression language instead: literals, `x`, `SSI`, `USD` and the
  four arithmetic operators on Python 2 ints, Decimals and strings.
  Everything else `eval` can do is not modelled.
- Decimal precision, rounding contexts, exponent limits, `Infinity` and `NaN`
  are not modelled: decimals are exact rationals. The database column's 19
  digits with 5 decimal places are not modelled either.
- Whitespace in `strip` is ASCII whitespace; Unicode whitespace is not
  modelled.
- The SQL text of the search and its injection of the sector and exchange
  texts are not modelled. The query is modelled by its meaning. A sector
  text that is no number makes the query fail, and any other text is
  compared by value.
- The database's order among companies with equal counts is unspecified.
  The model takes company-table order, and no property depends on it beyond
  the order by count.
- A Python dictionary's iteration order (form fields, `minmax_criteria`) is
  modelled as a given sequence of entries.
- Graph.GraphParams: only the `chs`, `chd` and `chds` parameters are
  modelled. `cht`, `chxt`, `chf` and `chxl` (with `Decimal.normalize`) are
  not, and neither are the parameter order of the dictionary and the URL
  assembly.
- Graph.CreateData: `y_size` is not used by `create_data`, so it is not a
  parameter.
- `load_sectors` and `load_criterias` are not modelled. They list database
  rows behind a placeholder the same way `load_exchanges` does.
- Views, admin and the management commands are not part of this model.
- Today's date in the history entry is a parameter, a day number.
- Extraction.Newest: the database does not fix the order among history
  entries of one value with the same date. The model lets the entry saved
  last win; `Extraction.RecordHistoryDedup` and
  `Extraction.ExtractTwiceSameValue` rely on this tie rule when an entry is
  dated on the recording day. Where the value's dates are distinct,
  `Extraction.NewestDetermined` shows that no tie rule matters, and
  `Extraction.RecordHistoryApart` shows that recording on later days keeps
  them distinct.
- Extraction.Extractor.Extract: the database writes of one extraction happen
  at once. Concurrent extractions and transactions are not modelled.
