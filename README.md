# Fintech market data: normalisers, queries and portfolio ledger

This project models the data layer of a small fintech analysis tool. The tool
loads two CSV snapshots: a crypto market table and a stock market table. It
normalises the numbers written as text in them, answers ranking, filtering,
lookup and summary queries over the normalised tables, and keeps a portfolio
ledger of holdings.

The model has four parts.

- **Loader** (`DataLoader`, built on `Text` and `Decimal`)
  - It has four cell normalisers:
    - the currency parser strips `$`, `,` and whitespace, then applies an `M`/`K` suffix or falls back to 0.0;
    - the percentage parser strips `%`, `+`, `$` and `,`, and is total;
    - the volume parser strips only whitespace and applies the suffix rule;
    - the stock `chg_%` conversion strips `%` and `+` and raises on anything else.
  - It binds each CSV column to its normaliser.
  - `float()` is modelled on a signed-decimal grammar. Before reading, it skips only C whitespace (space and `\t` to `\r`); the separators `\x1c` to `\x1f`, which `str.strip()` removes, make it raise. Its round trip, its soundness and its rejection of foreign characters are all proved.
  - A missing cell is `None`. A raised `ValueError` is `Err(ValueError)`.
- **Queries** (`Selection`, `CryptoAnalyzer`, `StockAnalyzer`)
  - pandas `nlargest`/`nsmallest` with `keep='first'` is an index ranking. It is specified by `Selection.IsTopN`: as many rows as can be returned, without repeats, ordered by key with ties to the earlier row, and no omitted row ahead of a returned one. That answer is proved unique. pandas returns it whenever `n` is below the row count; "## Left out" says what happens otherwise.
  - Boolean masks are specified as order-preserving, sound and complete filters.
  - First-match lookups return the first matching row or `None`.
  - Overviews are counts, sums and means. The mean of an empty column is `None`, standing for NaN.
  - `get_volatile_stocks` writes a `volatility` column into the analyzer's table in place. It is a method of the class `StockAnalyzer.StockAnalyzer`, with a loop over the rows.
- **Portfolio** (`PortfolioManager`)
  - `Portfolio` is a class with a `seq<Holding>` field.
  - `AddHolding` derives the figures of the new holding and appends it. When the purchase price is zero it fails with the division error and leaves the ledger as it was.
  - The summary, the allocation and the performer rankings are functions of a snapshot of the ledger.

Queries return row positions (`seq<nat>`, `Option<nat>`) rather than projected
frames. All money and percentage values are `real`.

Where the code departs from the tool's documented design, the model follows the code:

- `load_crypto_data` does not lower-case the `symbol` column. `get_statistics_by_symbol` lower-cases only the query, so a stored symbol with an upper-case letter is never found (`CryptoAnalyzer.UpperCaseSymbolUnreachable`).
- `add_holding` does not validate the quantity or the prices. With Python numbers, its only failure is the division by a zero purchase price.
- Some parse failures are not turned into 0.0:
  - the `M`/`K` branches of the currency and volume parsers raise when the prefix is not a number;
  - the stock `chg_%` conversion raises on unreadable text.

## Model

| member | source | states |
|---|---|---|
| Text.RemoveChar | data_loader.py:39 | `replace(c, '')` leaves no `c` and never lengthens the text |
| Text.RemoveCharCommute | data_loader.py:77 | the order of the chained `replace` calls does not matter |
| Text.RemoveCharIdempotent | data_loader.py:77 | removing a character a second time changes nothing |
| Text.RemoveCharKeeps | data_loader.py:39 | every other character survives a removal |
| Text.Strip | data_loader.py:39 | neither end of a stripped text is whitespace, where whitespace is space, `\t` to `\r` and the separators `\x1c` to `\x1f` |
| Text.StripSeparators | data_loader.py:39 | `\x1c7\x1f` strips to `7`, as `str.strip()` does |
| Text.StripPadded | data_loader.py:105 | whitespace added on either side of unpadded text is stripped off again, and nothing else is |
| Text.Trim | data_loader.py:51 | neither end of the text `float()` reads is C whitespace (space, `\t` to `\r`); the separators `\x1c` to `\x1f` are not trimmed |
| Text.TrimPadded | data_loader.py:51 | C whitespace added on either side of unpadded text is trimmed off again, and nothing else is |
| Text.StripAgreesWithTrim | data_loader.py:39-51 | when the trimmed text starts and ends with no separator, `str.strip()` and the trimming of `float()` give the same text |
| Text.Lower | crypto_analyzer.py:104 | `lower()` keeps the length and lower-cases character by character |
| Text.LowerIdempotent | crypto_analyzer.py:104 | lower-casing twice is lower-casing once |
| Text.Contains | stock_analyzer.py:100 | true exactly when the pattern occurs at some position of the text |
| Decimal.ParseRender | data_loader.py:51 | `float()` reads every literal of the decimal grammar back as the number it denotes |
| Decimal.ParseSound | data_loader.py:51 | whatever `float()` accepts is the text of a grammar literal, with that literal's value |
| Decimal.ParseFloat | data_loader.py:51 | any literal of the decimal grammar whose rendering is the text with C whitespace trimmed off its ends is what `float()` reads |
| Decimal.ParseFloatSound | data_loader.py:51 | whatever `float()` accepts is, once trimmed of C whitespace, the rendering of a grammar literal, and the value is that literal's |
| Decimal.ParseRejectsForeign | data_loader.py:50-53 | within the decimal grammar, a letter, `$`, `,`, `%` or inner whitespace makes the text unparseable |
| Decimal.FloatRejectsForeign | data_loader.py:50-53 | within the decimal grammar, a character outside C whitespace, digits, signs and `.` (a separator `\x1c` included) makes `float()` raise wherever it stands |
| Decimal.FloatOmits | data_loader.py:118 | text that `float()` accepts contains no `$`, `,`, `%` or `\x1c` |
| Decimal.FloatOfStripped | data_loader.py:39-51 | wherever `float()` reads a number, stripping the text first changes nothing |
| Decimal.FloatRejectsSeparator | data_loader.py:51 | `float()` raises on `\x1c5`, although it reads 5.0 once `str.strip()` has removed the separator |
| Decimal.ParseFloatPadded | data_loader.py:51 | surrounding C whitespace does not change what `float()` reads |
| DataLoader.ParseCurrencyValue | data_loader.py:35-36 | a missing cell is 0.0 |
| DataLoader.CurrencyIgnoresSymbols | data_loader.py:39 | the result depends only on the text with `$` and `,` removed and stripped |
| DataLoader.CurrencyIgnoresComma | data_loader.py:39 | a `,` written anywhere is ignored |
| DataLoader.CurrencySuffix | data_loader.py:42-47 | with a trailing `M`/`K`, the result is the prefix's number times 1,000,000 or 1,000, and it raises when the prefix is not a number |
| DataLoader.CurrencyFallback | data_loader.py:50-53 | without a suffix, the result is the number the text spells, or 0.0 for unreadable text |
| DataLoader.CurrencyOfLiteral | data_loader.py:39-51 | `"$"` followed by a literal reads as that literal's value |
| DataLoader.CurrencyOfScaledLiteral | data_loader.py:39-47 | `"$"`, a literal and `M`/`K` read as the value times a million or a thousand |
| DataLoader.CurrencyOfWord | data_loader.py:50-53 | a lower-case word with a letter no `float()` literal contains (any but a, e, f, i, n, t, y) reads as 0.0 |
| DataLoader.CurrencyExampleHundred | test_fintech.py:22 | `"$100.00"` is 100.0 |
| DataLoader.CurrencyExampleThousands | test_fintech.py:23 | `"$1,234.56"` is 1234.56 |
| DataLoader.CurrencyExampleMillions | test_fintech.py:26 | `"$10.5M"` is 10500000.0 |
| DataLoader.CurrencyExampleKilo | test_fintech.py:29 | `"$250K"` is 250000.0 |
| DataLoader.CurrencyExampleGarbage | data_loader.py:50-53 | `"garbage"` falls back to 0.0 |
| DataLoader.CurrencyExampleBareSuffix | data_loader.py:42-43 | `"M"` raises, since nothing precedes the suffix |
| DataLoader.CurrencyExampleWordSuffix | data_loader.py:46-47 | `"abcK"` raises, since the prefix is not a number |
| DataLoader.CurrencyExampleSeparatorSuffix | data_loader.py:39-43 | `"5\x1cM"` raises: stripping leaves the inner separator, and `float()` does not skip it |
| DataLoader.ParsePercentage | data_loader.py:75-76 | a missing cell is 0.0, and the result type has no error: the parser is total |
| DataLoader.PercentageOfLiteral | data_loader.py:74-81 | a literal followed by `%` reads as its value, so a `-` sign survives and a `+` sign is dropped |
| DataLoader.PercentageIgnoresSymbol | data_loader.py:77 | removing a `%`, `+`, `$` or `,` anywhere does not change the result |
| DataLoader.PercentageRejectsLetter | data_loader.py:78-81 | text with a lower-case letter no `float()` literal contains (any but a, e, f, i, n, t, y) reads as 0.0 |
| DataLoader.ParseVolume | data_loader.py:103-104 | a missing cell is 0.0 |
| DataLoader.VolumeSuffix | data_loader.py:106-109 | with a trailing `M`/`K`, the result is the scaled prefix, and it raises when the prefix is not a number |
| DataLoader.VolumeFallback | data_loader.py:105-113 | volume text with no suffix and no whitespace is the number it spells, or 0.0 when it is not a number |
| DataLoader.VolumeOfLiteral | data_loader.py:105-109 | a literal with an `M`/`K` suffix is its value times a million or a thousand |
| DataLoader.VolumeRejectsCurrencySymbols | data_loader.py:105-113 | a `$` or `,` makes the value 0.0 or a raised error, since only whitespace is stripped |
| DataLoader.VolumeExampleSeparatorSuffix | data_loader.py:105-107 | `"5\x1cM"` raises, since the prefix `5\x1c` is not a number to `float()` |
| DataLoader.ParseChangePercent | data_loader.py:118 | wherever the `chg_%` conversion reads a number, it is the number the crypto percentage parser reads from the same text |
| DataLoader.StrictAgreesWithLenient | data_loader.py:118 | text the `chg_%` conversion accepts has no `$` or `,`, so the percentage parser reads the same number from it |
| DataLoader.ChangePercentOfLiteral | data_loader.py:118 | a literal followed by `%` reads as its value |
| DataLoader.ChangePercentExampleSeparator | data_loader.py:118 | `"\x1c5%"` raises, since `float()` does not skip the separator |
| DataLoader.ChangePercentRejectsLetter | data_loader.py:118 | text with a lower-case letter no `float()` literal contains raises, since there is no zero fallback |
| DataLoader.PercentPoliciesDiffer | data_loader.py:118 | text with a lower-case letter no `float()` literal contains, such as `unch`, is 0.0 for the crypto percentage parser and an error for the stock `chg_%` conversion |
| DataLoader.CryptoRowWith | data_loader.py:69-84 | a crypto row fails exactly when one of its three currency cells fails, and otherwise binds each column to its converter |
| DataLoader.LoadCryptoRow | data_loader.py:66-84 | a crypto row fails exactly when `price_usd`, `vol_24h` or `market_cap` fails, never through a percentage column; otherwise those three go through the currency parser, `chg_24h` and `chg_7d` through the percentage parser, and the text columns pass through |
| DataLoader.StockRowWith | data_loader.py:115-118 | a stock row fails exactly when its volume or its `chg_%` conversion fails, and otherwise binds them |
| DataLoader.LoadStockRow | data_loader.py:99-118 | a stock row fails exactly when `vol_` or `chg_%` fails to convert; otherwise `vol_` goes through the volume parser, `chg_%` through its conversion, every other column passes through and there is no volatility yet |
| DataLoader.LoadAll | data_loader.py:69-71 | applying a converter down a column raises when any row does, and otherwise keeps every row in order |
| DataLoader.LoadCryptoData | data_loader.py:55-86 | the crypto table loads when every row does, with the same rows in file order |
| DataLoader.LoadStockData | data_loader.py:88-120 | the stock table loads when every row does, with the same rows in file order |
| Selection.Clamp | crypto_analyzer.py:35 | `nlargest(n)` returns no rows for `n <= 0`, `n` rows when there are enough, and every row otherwise |
| Selection.TopN | crypto_analyzer.py:35 | `nlargest` gives a correct top-n answer (`IsTopN`) |
| Selection.TopNLeads | crypto_analyzer.py:35 | in a top-n answer, each entry ranks before every row not listed before it |
| Selection.TopNUnique | crypto_analyzer.py:35 | the top-n answer is unique: any correct answer equals `TopN` |
| Selection.TopNPrefix | crypto_analyzer.py:35 | the first rows of `nlargest(n')` are `nlargest(n)` for `n <= n'` |
| Selection.BottomN | crypto_analyzer.py:49 | `nsmallest` gives a correct bottom-n answer (`IsBottomN`) |
| Selection.InRangeMeans | crypto_analyzer.py:91 | a row meets the range mask exactly when its value lies between the bounds, both included |
| Selection.RangeEmpty | crypto_analyzer.py:91 | an inverted range selects nothing |
| Selection.RangeFull | stock_analyzer.py:87 | a range holding every value selects every row, in order |
| Selection.Where | crypto_analyzer.py:91-92 | a boolean mask keeps exactly the rows that meet it, in table order |
| Selection.WhereCount | crypto_analyzer.py:76-77 | `len(data[mask])` is the number of rows that meet the mask |
| Selection.WherePartition | stock_analyzer.py:71-73 | three exclusive and exhaustive masks split the table's row count |
| Selection.WhereDisjoint | crypto_analyzer.py:76-77 | two exclusive masks select no more rows between them than the table has |
| Selection.First | crypto_analyzer.py:104-108 | `iloc[0]` of a mask is the first matching row, and it is `None` exactly when no row matches |
| Selection.FirstAgree | stock_analyzer.py:100-104 | masks that agree on every row find the same first row |
| Selection.Sum | crypto_analyzer.py:71 | `Series.sum()` of a column, proved to respect bounds and signs in `SumBounds` and `SumNonNegative` |
| Selection.SumBounds | crypto_analyzer.py:71-72 | a column whose values lie in `[lo, hi]` sums to between `n * lo` and `n * hi` |
| Selection.ColumnSumBounds | crypto_analyzer.py:71-72 | the same bound for a column taken from a table |
| Selection.SumNonNegative | crypto_analyzer.py:71-72 | a column with no negative value has a sum that is not negative |
| Selection.SumDifference | portfolio_manager.py:63-65 | column sums distribute over a row-wise difference |
| Selection.SumWhereSplit | portfolio_manager.py:68-69 | the sums over two complementary masks add up to the column total |
| Selection.Mean | crypto_analyzer.py:73 | the mean is undefined exactly for the empty column |
| Selection.MeanBounds | crypto_analyzer.py:73-74 | the mean lies within any bounds of the values |
| CryptoAnalyzer.PeriodColumn | crypto_analyzer.py:34 | the period `"24h"` ranks by `chg_24h`, and any other period by `chg_7d` |
| CryptoAnalyzer.GetTopPerformers | crypto_analyzer.py:23-35 | the top-n answer on the period's change column |
| CryptoAnalyzer.GetWorstPerformers | crypto_analyzer.py:37-49 | the bottom-n answer on the period's change column |
| CryptoAnalyzer.GetHighestVolume | crypto_analyzer.py:51-61 | the top-n answer on `vol_24h` |
| CryptoAnalyzer.OtherPeriodsAgree | crypto_analyzer.py:48 | every period other than `"24h"` gives the same performers |
| CryptoAnalyzer.TopPerformerIsMaximal | crypto_analyzer.py:35 | the first top performer has the largest change of the period |
| CryptoAnalyzer.GetMarketOverview | crypto_analyzer.py:63-78 | reports the row count, and gainers and losers counted by sign, which together never exceed the row count; the means are undefined only for an empty table |
| CryptoAnalyzer.OverviewAverageBounds | crypto_analyzer.py:73 | the average 24-hour change lies within any bounds of the changes |
| CryptoAnalyzer.OverviewAverage7dBounds | crypto_analyzer.py:74 | the average 7-day change lies within any bounds of the changes |
| CryptoAnalyzer.OverviewMarketCapBounds | crypto_analyzer.py:71 | with every market cap in `[lo, hi]`, the total lies between `n * lo` and `n * hi` |
| CryptoAnalyzer.OverviewVolumeBounds | crypto_analyzer.py:72 | with every 24-hour volume in `[lo, hi]`, the total lies between `n * lo` and `n * hi` |
| CryptoAnalyzer.OverviewTotalsNonNegative | crypto_analyzer.py:71-72 | market caps and volumes that are never negative give totals that are not negative |
| CryptoAnalyzer.OverviewAllGaining | crypto_analyzer.py:76-77 | in a table where every coin rose, all are gainers and none are losers |
| CryptoAnalyzer.GetByPriceRange | crypto_analyzer.py:80-92 | every coin with `lo <= price_usd <= hi` and no other, in table order |
| CryptoAnalyzer.GetStatisticsBySymbol | crypto_analyzer.py:94-117 | the first row whose stored symbol equals the lower-cased query, or `None` exactly when there is none |
| CryptoAnalyzer.SymbolLookupIgnoresCase | crypto_analyzer.py:104 | any query finds what its lower-cased form finds |
| CryptoAnalyzer.SymbolLookupExample | crypto_analyzer.py:104 | `"BTC"` finds what `"btc"` finds |
| CryptoAnalyzer.UpperCaseSymbolUnreachable | crypto_analyzer.py:104 | a stored symbol with an upper-case letter is never found |
| StockAnalyzer.GetTopGainers | stock_analyzer.py:23-33 | the top-n answer on `chg_%` |
| StockAnalyzer.GetTopLosers | stock_analyzer.py:35-45 | the bottom-n answer on `chg_%` |
| StockAnalyzer.GetHighestVolume | stock_analyzer.py:47-57 | the top-n answer on `vol_` |
| StockAnalyzer.GainerIsNotLoser | stock_analyzer.py:33-45 | when the changes are not all equal, the top gainer is not the top loser |
| StockAnalyzer.GetMarketOverview | stock_analyzer.py:59-74 | gainers, losers and unchanged are counted by the sign of `chg_%` and add up to `total_stocks`, which is the row count; the means are undefined only for an empty table |
| StockAnalyzer.OverviewAveragePriceBounds | stock_analyzer.py:68 | the average price lies within any bounds of the prices |
| StockAnalyzer.OverviewAverageChangeBounds | stock_analyzer.py:69 | the average `chg_%` lies within any bounds of the changes |
| StockAnalyzer.OverviewVolumeBounds | stock_analyzer.py:70 | with every volume in `[lo, hi]`, the total lies between `n * lo` and `n * hi` |
| StockAnalyzer.OverviewFlatMarket | stock_analyzer.py:71-73 | in a table with no change, every stock counts as unchanged |
| StockAnalyzer.GetByPriceRange | stock_analyzer.py:76-88 | every stock with `lo <= last <= hi` and no other, in table order |
| StockAnalyzer.GetStatisticsByName | stock_analyzer.py:90-113 | the first named row whose name contains the query ignoring case, or `None` exactly when there is none; a missing name never matches |
| StockAnalyzer.NameMatches | stock_analyzer.py:100 | a missing name never matches; a matching name is at least as long as the query; the empty query matches every named row |
| StockAnalyzer.NameLookupIgnoresCase | stock_analyzer.py:100 | a lower-cased query finds the same row |
| StockAnalyzer.NameLookupFinds | stock_analyzer.py:100-104 | a row named exactly as the query is found, or an earlier match is |
| StockAnalyzer.EmptyQueryFindsFirstNamed | stock_analyzer.py:100-104 | the empty query matches every named row |
| StockAnalyzer.Volatility | stock_analyzer.py:125 | the spread times 100 is the volatility times the last price; it is not negative when `low <= high`, and zero when they are equal |
| StockAnalyzer.WithVolatility | stock_analyzer.py:125 | writing the column keeps the row count and sets each row's volatility, leaving every other column |
| StockAnalyzer.StoredVolatilities | stock_analyzer.py:125-126 | the written column is the column of volatilities |
| StockAnalyzer.WithVolatilityIdempotent | stock_analyzer.py:125 | writing the column a second time changes nothing |
| StockAnalyzer.StockAnalyzer.constructor | stock_analyzer.py:14-21 | the analyzer holds the table it is given |
| StockAnalyzer.StockAnalyzer.GetVolatileStocks | stock_analyzer.py:115-127 | the table becomes the old table with the volatility column written, and the result is the top-n answer on the old table's volatilities |
| PortfolioManager.MakeHolding | portfolio_manager.py:30-41 | fails exactly for a zero purchase price; otherwise keeps the inputs and derives cost, value, gain and gain percentage |
| PortfolioManager.GainIsValueLessCost | portfolio_manager.py:37-39 | a holding's gain is its current value less its cost |
| PortfolioManager.GainPctOfCost | portfolio_manager.py:37-40 | for a non-zero quantity, the gain percentage is the gain as a percentage of the cost |
| PortfolioManager.HoldingExample | test_fintech.py:158-162 | 1 unit bought at 50000 and now at 60000 gains 10000, which is 20 percent |
| PortfolioManager.Portfolio.constructor | portfolio_manager.py:13-15 | a new portfolio has no holdings |
| PortfolioManager.Portfolio.AddHolding | portfolio_manager.py:17-42 | appends exactly the derived holding and keeps the earlier ones; for a zero purchase price it fails and the ledger is unchanged; every holding keeps its derived figures |
| PortfolioManager.TotalGainIsValueLessCost | portfolio_manager.py:63-65 | over a ledger, the total gain is the total value less the total cost |
| PortfolioManager.GetPortfolioSummary | portfolio_manager.py:44-70 | all zeros and no per-type values for the empty ledger; otherwise the holding count; the percentage times the cost is the gain times 100; gain = value − cost |
| PortfolioManager.SummaryTypesCoverValue | portfolio_manager.py:68-69 | when every holding is crypto or stock, the values per type add up to the total value |
| PortfolioManager.SummaryAppend | portfolio_manager.py:62-67 | one more holding adds its figures to the totals and one to the count |
| PortfolioManager.SummaryOfTwo | portfolio_manager.py:62-67 | a two-holding ledger's totals are the sums of the two holdings' figures |
| PortfolioManager.SummaryExample | test_fintech.py:164-176 | Bitcoin and Apple give totals 51500 / 61600 / 10100 over 2 holdings |
| PortfolioManager.GetAssetAllocation | portfolio_manager.py:83-101 | nothing for an empty ledger; not a finite number exactly when the total value is zero; otherwise each share times the total is the type's value times 100 |
| PortfolioManager.AllocationSumsTo100 | test_fintech.py:178-189 | when every holding is crypto or stock and the total value is non-zero, the shares add up to 100 |
| PortfolioManager.GetTopPerformers | portfolio_manager.py:103-117 | the top-n answer on `gain_loss_pct`, which is empty for an empty ledger |
| PortfolioManager.GetWorstPerformers | portfolio_manager.py:119-133 | the bottom-n answer on `gain_loss_pct`, which is empty for an empty ledger |

## Left out

- File access is not modelled: the existence check, `read_csv` and `load_all_data`. A table arrives as a sequence of raw rows.
- `pd.to_datetime` is not modelled. Timestamps are kept as their text, so a malformed timestamp does not fail the load.
- Mutating the columns of a pandas frame in the loader is not modelled, since only the binding of columns to parsers is observable. It is modelled as building new rows.
- Decimal.ParseFloat: reads only signed decimals. Exponents (`1e5`), `inf`, `infinity`, `nan`, digit-group underscores and non-ASCII decimal digits such as `٣`, which Python's `float()` also accepts, are treated as unparseable. So the currency and percentage parsers read such text as 0.0, or raise when it comes before an `M`/`K` suffix (`$1e3K`), and the `chg_%` conversion raises on it. The DataLoader lemmas about letters are stated only for letters that none of these spellings uses. Decimal.ParseRejectsForeign and Decimal.FloatRejectsForeign are the exceptions: they hold for the decimal grammar only, not for every text Python's `float()` reads.
- Floating point is not modelled: every number is an exact `real`. IEEE rounding, overflow and NaN propagation are outside the model.
- pandas drops NaN values in `nlargest`, `mean` and `sum`. The model has no NaN cells after loading, so it has no such dropping.
- Text.Lower: handles only ASCII case mapping. Unicode case folding is not modelled.
- Text.Strip: removes only ASCII whitespace (space, `\t` to `\r`, `\x1c` to `\x1f`). Unicode spaces such as `\x85` or `\xa0`, which `str.strip()` also removes, are not modelled; the same holds for Text.Trim and the Unicode spaces `float()` skips.
- StockAnalyzer.GetStatisticsByName: treats the query as a literal substring. `str.contains` reads it as a regular expression.
- DataLoader.ParseChangePercent: takes the `chg_%` cell as text. A missing cell (NaN) there, which pandas passes through as NaN, is not representable.
- DataLoader.LoadStockData: does not model the `AttributeError` that `.str.replace` raises when pandas reads the whole `chg_%` column as numbers or as all-NaN, for instance when no change is written with `%`. The model reads every `chg_%` cell as text.
- Records.CryptoRecord: the `name` and `symbol` fields are plain text. A missing `name` or `symbol` cell, which pandas keeps as NaN and `get_statistics_by_symbol` never matches, cannot be represented.
- The `last`, `high`, `low` and `chg_` stock columns are taken as already-numeric `real`s, as pandas reads them.
- StockAnalyzer.StockAnalyzer.GetVolatileStocks: requires every `last` to be positive. A zero last price gives an infinite or NaN volatility, which the model does not represent.
- StockAnalyzer.StockAnalyzer.GetVolatileStocks: the table is a `seq` field, so the model does not show that pandas writes the `volatility` column into a frame the caller may share with other objects. Nothing else in the core reads that column.
- StockAnalyzer.StoredVolatility: reads 0.0 for a row whose volatility has not been written yet. The method writes every row before reading, so the default is never observed through it.
- PortfolioManager.MakeHolding: models Python number arguments, for which a zero purchase price raises. With numpy `float64` arguments the division gives inf or NaN with a warning, and `add_holding` appends the holding; that path is not modelled. The same holds for PortfolioManager.Portfolio.AddHolding.
- Selection.TopN: orders ties by row, as `nlargest(keep='first')` does when it selects. When `n` is at least the row count, pandas sorts with an unstable sort instead, so tied rows may come out in another order there.
- Selection.BottomN: orders ties by row, as `nsmallest(keep='first')` does when it selects. When `n` is at least the row count, pandas sorts with an unstable sort instead, so tied rows may come out in another order there.
- PortfolioManager.GetPortfolioSummary: reports `total_gain_loss_pct` as `None` when a non-empty ledger's total cost is zero, where pandas gives inf or NaN.
- PortfolioManager.GetAssetAllocation: gives `NotFinite` when the total value is zero, where pandas gives inf or NaN percentages.
- Result frames are not projected onto columns. Queries return row positions, and the projection selects columns without adding or reordering rows.
- `get_holdings_dataframe` is not modelled. It only wraps the list of holdings in a frame, so it has no behaviour beyond the `holdings` field.
- The `CryptoAnalyzer` class and the query methods of `StockAnalyzer` other than the volatility query are not modelled as objects. They only read the table, so they are functions of it.
- `fintech_app.py`, `cli.py`, `examples.py` and `visualizer.py` are not modelled. They hold printing, argument parsing, sample data and charts, and are not part of this model.
