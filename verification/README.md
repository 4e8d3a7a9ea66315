# Exchange-rates data source: a Dafny model of its data shaping

The Grafana exchange-rates data source answers a panel's query with a time
series of currency rates. This project models the two places where it shapes
data, and proves what each promises.

- `FetchRange` (exchangerates.go) is modelled in `ExchangeRates` and its helper modules:
  - It builds the `timeseries` request URL from the range bounds (formatted `2006-01-02`), the base currency, and the comma-joined symbols.
  - It walks the keys of the decoded `rates` map. A key that does not parse as a date is skipped. A date whose UTC midnight is strictly inside `(from, to)` is kept.
  - It stable-sorts the kept instants by Unix seconds.
  - It lays out a frame: a `time` column, then one float column per symbol, in argument order. Each rate is read back under the re-formatted date.
- `query` (plugin.go) is modelled in `Plugin`:
  - It decodes the query model and short-circuits on a decoding error.
  - It moves the lower bound back 24 hours, asks for the series, and short-circuits on a fetch error.
  - It keeps the dates of the series' `Order` that are strictly inside the widened range and have a rate. They go into two index-aligned columns of a single `response` frame.

Modules:

- `Errors`: `Error`, `Option` and `Result`.
- `Decimal`: fixed-width digit runs, and Go's zero-padded integer formatting.
- `Calendar`: the proleptic Gregorian calendar and day numbers, with their inverse. Also instants as nanoseconds since the Unix epoch, midnights, and `Unix()`.
- `DateLayout`: `time.Parse` and `Time.Format` for the layout `2006-01-02`, the full-date shape of section 5.6 of RFC 3339.
- `Frames`: the part of Grafana's data-frame model that is filled in.
- `UnixSort`: the in-place sort of exchangerates.go line 57, on an array prefix.
- `ExchangeRates`: `FetchRange`.
- `Plugin`: `query`.

## Model

| member | source | states |
|---|---|---|
| ExchangeRates.FetchRange | pkg/plugin/exchangerates.go:20-72 | The URL is built from the arguments. A transport or decoding error is returned unchanged. On success the frame is named `response`. Its first field is `time` and satisfies IsTimeColumn. Then comes one field per symbol, named after it, holding that symbol's rates (AreSymbolColumns). |
| ExchangeRates.RequestUrl | pkg/plugin/exchangerates.go:21-26 | The URL `Sprintf` builds: the `timeseries` prefix, `from`'s UTC date, `&end_date=`, `to`'s UTC date, `&base=`, the base, `&symbols=` and the joined symbols. Its contract says the URL ends with the joined symbols; RequestUrlFields places every other piece. |
| ExchangeRates.Join | pkg/plugin/exchangerates.go:25 | `strings.Join`: the parts with the separator between each two. A non-empty join starts with the first part and ends with the last; SplitJoin shows nothing is lost. |
| ExchangeRates.RequestUrlFields | pkg/plugin/exchangerates.go:21-26 | For years 0 to 9999, the URL is the fixed prefix, then `from`'s date (ten characters that parse back to `from`'s UTC date), then `&end_date=` and `to`'s date likewise, then `&base=`, the base verbatim, `&symbols=` and the joined symbols. |
| ExchangeRates.DateField | pkg/plugin/exchangerates.go:22-23 | For a bound of years 0 to 9999, the formatted bound is ten characters long and parses back to the bound's UTC date. |
| ExchangeRates.SplitJoin | pkg/plugin/exchangerates.go:25 | For a non-empty list of symbols, none containing the separator, splitting the joined symbols at the separator gives back the symbols, in order. |
| ExchangeRates.JoinNoSymbols | pkg/plugin/exchangerates.go:25 | No symbols and one empty symbol join to the same empty text, so the two requests have the same `&symbols=` field; this is why SplitJoin needs a non-empty list. |
| ExchangeRates.Kept | pkg/plugin/exchangerates.go:47-54 | The test a key passes to be collected: it parses as `2006-01-02`, and its UTC midnight is strictly after `from` and strictly before `to`. A kept key is ten characters long, and a key can only be kept when from < to. |
| ExchangeRates.KeptInstants | pkg/plugin/exchangerates.go:46-55 | The set of the midnights of the kept keys: what the collection loop appends. Every one lies strictly inside (from, to). |
| ExchangeRates.KeyInstant | pkg/plugin/exchangerates.go:47 | The `when` that `time.Parse` gives a key: its UTC midnight, a whole number of days and a whole second. DateLayout.FormatDayStart shows it formats back to the key. |
| ExchangeRates.CollectKept | pkg/plugin/exchangerates.go:43-55 | Whatever order the map's keys are walked in, the instants written hold, as a multiset, exactly the midnights of the keys that parse and lie strictly inside (from, to). |
| ExchangeRates.CollectOne | pkg/plugin/exchangerates.go:47-54 | One pass of the loop. The count grows by one exactly when the key is kept. A kept key's midnight is written at `times[n]`. The cells before `n` and the cells from the new count on are unchanged, so a skipped key writes nothing. The multiset invariant moves from the keys walked so far to those keys plus this one. |
| ExchangeRates.CollectStep | pkg/plugin/exchangerates.go:46-55 | The collection invariant is preserved when one more key is walked. |
| ExchangeRates.KeptInstantsAdd | pkg/plugin/exchangerates.go:47-53 | A new kept key adds its midnight, and that midnight was not among the earlier ones: distinct keys never give the same instant. |
| ExchangeRates.UnparsedKeySkipped | pkg/plugin/exchangerates.go:47-50 | A key that does not parse contributes nothing: the kept instants with and without it are the same. |
| ExchangeRates.SortedKeptIsTimeColumn | pkg/plugin/exchangerates.go:46-57 | The collected instants, once sorted by Unix seconds, form the time column: no repeats, strictly ascending, strictly inside the bounds, each formatting back to its own key. |
| ExchangeRates.KeptElement | pkg/plugin/exchangerates.go:47-54 | A kept instant is a whole second, lies strictly inside (from, to), and formats to a key of the map that parses back to it. |
| ExchangeRates.TimeColumnComplete | pkg/plugin/exchangerates.go:46-55 | Every key that parses and lies strictly inside (from, to) has its midnight in the time column. |
| ExchangeRates.TimeColumnSound | pkg/plugin/exchangerates.go:52-54 | Every entry of the time column is the midnight of a kept key. |
| ExchangeRates.TimeColumnUnique | pkg/plugin/exchangerates.go:46-57 | Two time columns for the same rates and bounds are equal, so the output does not depend on the map's iteration order. |
| ExchangeRates.SortedDistinctAscending | pkg/plugin/exchangerates.go:57 | Distinct whole-second instants sorted by Unix seconds are strictly ascending, so the stable sort never meets a tie. |
| ExchangeRates.AscendingUnique | pkg/plugin/exchangerates.go:57 | Two strictly ascending sequences with the same elements are equal. |
| ExchangeRates.HeadsAgree | pkg/plugin/exchangerates.go:57 | Two strictly ascending sequences with the same elements start with the same element, and their tails have the same elements. |
| ExchangeRates.RateAt | pkg/plugin/exchangerates.go:65 | The double lookup `rates.Rates[key][symbol]`. It is Go's zero value when the date or the symbol is missing. |
| ExchangeRates.RateColumn | pkg/plugin/exchangerates.go:62-66 | The column has one entry per time. Entry i is the rate under the time's formatted date and the symbol, or zero when either is absent. |
| ExchangeRates.RateColumnAppend | pkg/plugin/exchangerates.go:64-66 | Appending one time's rate keeps a rate column a rate column. |
| ExchangeRates.SymbolColumns | pkg/plugin/exchangerates.go:59-69 | There are exactly 1 + len(symbols) fields. The first is the time column. Field 1 + k is named `symbols[k]` and is that symbol's rate column. |
| UnixSort.SortByUnix | pkg/plugin/exchangerates.go:57 | After the call, the first n cells are sorted by Unix seconds and are a permutation of what was there. The cells beyond n are untouched. |
| UnixSort.InsertLast | pkg/plugin/exchangerates.go:57 | Inserting cell i into the sorted prefix leaves the first i + 1 cells sorted. The array's multiset is unchanged and the cells after i are untouched. |
| UnixSort.InsertingSwap | pkg/plugin/exchangerates.go:57 | Swapping the inserted cell with a larger predecessor moves it one step left, keeps the rest sorted, and keeps the multiset. |
| UnixSort.PrefixPermutes | pkg/plugin/exchangerates.go:57 | When the whole array keeps its multiset and the cells beyond n are unchanged, the first n cells keep their multiset. |
| DateLayout.Parse | pkg/plugin/exchangerates.go:47 | A key that parses gives a valid calendar date with a year from 0 to 9999. |
| DateLayout.Format | pkg/plugin/exchangerates.go:22-23 | `Time.Format("2006-01-02")` of a date: the year zero-padded to four digits, '-', the month and the day zero-padded to two digits. For a valid date of years 0 to 9999 it is ten characters. |
| DateLayout.FormatInstant | pkg/plugin/exchangerates.go:65 | `when.Format("2006-01-02")`: Format of the instant's UTC date, ten characters for years 0 to 9999. |
| DateLayout.FormatParse | pkg/plugin/exchangerates.go:65 | Formatting a parsed key gives back the key, character for character. |
| DateLayout.ParseFormat | pkg/plugin/exchangerates.go:22-23 | Every valid date of years 0 to 9999 parses back from its formatted text. |
| DateLayout.FormatFields | pkg/plugin/exchangerates.go:22-23 | A formatted date of years 0 to 9999 is ten characters: four year digits, '-', two month digits, '-', two day digits. |
| DateLayout.ParseInjective | pkg/plugin/exchangerates.go:47 | Two keys that parse to the same date are the same key. |
| DateLayout.FormatDayStart | pkg/plugin/exchangerates.go:47-65 | Formatting the midnight a key parses to gives back the key, so the lookup reads the entry the date came from. |
| Decimal.FormatInt | pkg/plugin/exchangerates.go:22-23 | Go's `appendInt`: a '-' for a negative value, then the magnitude zero-padded to at least `width` digits. A value that fits in `width` digits is written as exactly `width` zero-padded digits. |
| Decimal.FormatIntReadsBack | pkg/plugin/exchangerates.go:22-23 | For every value, including negative ones and ones wider than `width`: exactly max(`width`, the magnitude's digit count) digits, so no extra leading zeros, that read back as the magnitude, after a '-' when the value is negative. |
| Decimal.ValueOfDigitsOf | pkg/plugin/exchangerates.go:47 | Reading back the zero-padded digits of a number that fits gives the number. |
| Decimal.DigitsOfValueOf | pkg/plugin/exchangerates.go:65 | Writing back a run of digits at its own width gives the run itself. |
| Calendar.CivilOfDay | pkg/plugin/exchangerates.go:22-23 | The date computed for a day number is valid, and its day number is that day number. |
| Calendar.CivilOfDayNumber | pkg/plugin/exchangerates.go:65 | The date of a valid date's day number is that date. |
| Calendar.DateOf | pkg/plugin/exchangerates.go:22-23 | The UTC date of an instant is valid, and the instant lies within the 24 hours from that date's midnight. |
| Calendar.DayStart | pkg/plugin/exchangerates.go:47 | The UTC midnight `time.Parse` returns for a date, in nanoseconds since the epoch. It is a whole number of days. |
| Calendar.DateOfDayStart | pkg/plugin/exchangerates.go:65 | The date of a date's midnight is that date. |
| Calendar.UnixSeconds | pkg/plugin/exchangerates.go:57 | Go's `Time.Unix()`, the sort key: the whole seconds since the epoch, rounded toward minus infinity, so the instant lies in [secs seconds, secs + 1 seconds). |
| Calendar.DayStartUnix | pkg/plugin/exchangerates.go:57 | A midnight's Unix seconds are whole days since the epoch, and the instant itself is a whole number of seconds. |
| Calendar.DayStartInjective | pkg/plugin/exchangerates.go:47-53 | Distinct dates have distinct midnights. |
| Calendar.DayNumberInjective | pkg/plugin/exchangerates.go:47 | Distinct valid dates have distinct day numbers. |
| Calendar.YearStep | pkg/plugin/exchangerates.go:47 | The days before year y + 1 are the days before year y plus the length of y, leap years included. |
| Calendar.MonthStep | pkg/plugin/exchangerates.go:47 | The days before month m + 1 are the days before m plus the days in m, and twelve months make the year. |
| Plugin.Query | pkg/plugin/plugin.go:105-147 | A decoding error gives that error, no frames and no fetch. Otherwise the base, the bound moved back exactly 24 hours, the unchanged upper bound and the single symbol `toCurrency` are requested. A fetch error gives that error and no frames. On success there is one frame `response` with two fields: `time`, holding the window of the series over the widened range, and `toCurrency`, aligned with it. |
| Plugin.InWindow | pkg/plugin/plugin.go:132-133 | The test a date of the series passes: strictly after the (widened) lower bound, strictly before the upper bound, and present in `Rates`. |
| Plugin.FilterWindow | pkg/plugin/plugin.go:128-138 | The times emitted are the window of `order`. The rates beside them are index-aligned, with `exchangeRate[i] == rates[times[i]]`. |
| Plugin.Window | pkg/plugin/plugin.go:131-138 | The window is no longer than `order`, and each date in it lies strictly inside (from, to) and has a rate. |
| Plugin.WindowMembers | pkg/plugin/plugin.go:131-138 | A date is emitted exactly when it is in `order`, strictly inside the range, and has a rate. Both directions hold, so a date without a rate is never emitted. |
| Plugin.WindowSubsequence | pkg/plugin/plugin.go:131-135 | The emitted dates are a subsequence of `order`, in its order. |
| Plugin.SubsequenceMembers | pkg/plugin/plugin.go:131-135 | Every entry of a subsequence is an entry of the whole. |
| Plugin.SubsequenceAscending | pkg/plugin/plugin.go:131-135 | A subsequence of a strictly ascending sequence is strictly ascending. |
| Plugin.WindowAscending | pkg/plugin/plugin.go:131-135 | When the series lists its dates in ascending order, so does the time column. |
| Plugin.WindowAppend | pkg/plugin/plugin.go:131-137 | One more date at the end of `order` is appended to the window exactly when it passes the filter. |
| Plugin.WidenedFilterKeepsFirstDay | pkg/plugin/plugin.go:118-132 | The filter uses the widened bound. For the range 2024-01-01 to 2024-01-03 at midnight, the series' first day is kept, together with 2024-01-02. |
| Plugin.UnwidenedFilterDropsFirstDay | pkg/plugin/plugin.go:118-132 | Against the range's own lower bound the same series would keep 2024-01-02 alone, so the widening is what adds the first day. |
| Plugin.JanuaryMidnights | pkg/plugin/plugin.go:118-132 | The constants of the two scenario lemmas are the UTC midnights of 2024-01-01, 2024-01-02 and 2024-01-03. |

## Left out

- The HTTP GET and the JSON decoding in `FetchRange` (exchangerates.go lines 27 to 37) are network I/O and library decoding. Their outcome, the decoded payload or the error, is a parameter. The response's status code is not looked at by the source either.
- `json.Unmarshal` of the query model and the data source's own series fetch `d.fetchRange` (plugin.go lines 112 and 120) are function parameters of `Plugin.Query`. The series fetch and its result type are not part of this model. Its result is a series with `Order` and a `Rates` map keyed by instant.
- `QueryData` (plugin.go lines 67 to 98) is left out: it is concurrency and cancellation. It runs `query` once per query in its own goroutine, stores each response under the query's `RefID`, and returns early when the context is cancelled.
- `CheckHealth`, the cache construction in `NewExchangeRatesDatasource`, `Dispose`, and the logging calls are left out: they are I/O, a foreign library, and the plugin lifecycle. `FetchRange` itself does no caching.
- Time zones: every instant is in UTC, as the parsed keys are. A `from` or `to` in another location, and its date as formatted there, are not modelled.
- Float64 rates are carried as 64-bit patterns and never computed on. Go's zero value for a missing rate is the all-zero pattern.
- `time.Time` values are instants (nanoseconds since the epoch). The series map in `Plugin` is keyed by instant, whereas Go compares `time.Time` map keys by their internal representation, location included.
- DateLayout.Parse: only years 0 to 9999 are written with four digits, and parsing is modelled for the `2006-01-02` layout alone.
- DateLayout.ParseFormat: does not cover years outside 0 to 9999, which Go formats with a sign or more digits.
- UnixSort.SortByUnix: the sort is an insertion sort with the same result as `sort.SliceStable`. Its stability is not stated separately: ExchangeRates.SortedDistinctAscending shows no two sorted instants tie, so any correct sort gives the same output.
- Plugin.Query: the filter uses the widened lower bound, so a series date less than 24 hours before the requested `From`, or at `From`, is shown (Plugin.WidenedFilterKeepsFirstDay; Plugin.UnwidenedFilterDropsFirstDay shows what the original bound would give). The model keeps this behaviour: it does not promise that only dates from `From` on are shown.
- Integer width: instants, durations and Unix seconds are unbounded integers, whereas Go's `time.Duration` (in `Add(-time.Hour * 24)`) and `Time.Unix()` are int64. Overflow at the ends of the representable time range is not modelled.
