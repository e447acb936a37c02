# Acceptance rate by country

`ApprovalRate.py` turns a table of attempted payment orders into a
per-country acceptance report. It can narrow the orders to one payment
provider. It flags the failures that count, meaning every error except
"bad scoring". It drops duplicate orders, and groups the failures of each
user and partner by day and error. A failure group is discarded when the
same user and partner also succeeded that day. The script then counts
successes and surviving failure groups per (user, partner) and attaches
the pair's country. Finally it sums the counts per country, drops
countries with too few transactions unless all of them succeeded, and
lists the rest sorted by name with a whole-number acceptance percentage.

This project models that pipeline as pure Dafny functions over sequences
of records and maps keyed by tuples. Lemmas state what each stage
computes in terms of its input records.

- `wrappers.dfy` (`Wrappers`): `Option`, the stand-in for pandas' missing values.
- `text.dfy` (`Text`): ASCII lower-casing and substring search, Python's
  code-point order on strings, sorting a set of names, and the decimal text
  of a percentage with its parser.
- `tables.dfy` (`Tables`): the table operations the script relies on.
  These are boolean-mask selection, `drop_duplicates` with first-occurrence
  semantics, and `groupby(...).size()` with missing keys dropped.
- `orders.dfy` (`Orders`): the record, the provider selection, the
  `valid_failed` flag, the deduplication key and the calendar date.
- `failures.dfy` (`Failures`): failure groups, same-day suppression, and
  the per-pair success and failure counts with their outer merge.
- `countries.dfy` (`Countries`): the distinct (pair, code) rows, the left
  merge onto the pair counts, and the per-country sums.
- `report.dfy` (`Report`): the rate, its half-to-even rounding, the
  sample-size rule, the sorted listing, and the whole pipeline.

The country-code lookup (`country_name`, `ApprovalRate.py:5-9`) is a
parameter `countryName: string -> Option<string>`. The model assumes
nothing about it.

Where the script's comments and the code disagree, the model follows the
code:

- Missing error. `str.contains(..., na=True)` treats a missing error as
  containing "bad scoring", so that record is not a valid failure. Only the
  error decides the flag; the status plays no part.
- Deduplication. The comment says "date", but the key is the raw
  timestamp. Two orders on the same day at different times are both kept.
- Missing keys. `groupby` drops rows with a missing key. A failure whose
  timestamp did not parse forms no group. A pair whose country code is
  missing or does not resolve contributes to no country.
- Fan-out. The left merge copies a pair's counts once for every distinct
  country code recorded for that pair. A pair with two codes is therefore
  counted in two countries. Two codes with the same name count the pair
  twice in that country.
- Failure count. `failed_count` is the number of surviving failure groups
  of a pair, not the number of failed orders.
- Rounding. `round(0)` applies to the rate before the `int` cast, so the
  printed rate is rounded half to even, not truncated. A country can show
  "100%" without every transaction succeeding (199 of 200 shows 100%),
  because the filter compares the unrounded rate.

## Model

| member | source | states |
|---|---|---|
| Orders.SelectProvider | ApprovalRate.py:24-28 | `worldpay` keeps exactly the records whose provider equals "worldpay", each as often as it occurs. `safecharge` keeps those whose provider contains "safecharge" ignoring case. No selector, or any other selector, returns the records unchanged. |
| Orders.SelectProviderOrder | ApprovalRate.py:24-28 | The selection is the subsequence of the records in input order. Record `i` is in it exactly when the selector keeps it: provider equal to "worldpay", provider containing "safecharge" in any case, or any record for no or another selector. |
| Tables.FilterPicks | ApprovalRate.py:26-28 | A boolean mask keeps the rows it selects, and only those, as a subsequence in input order. |
| Tables.FilterDistinct | ApprovalRate.py:45 | A mask applied to rows that are pairwise distinct leaves rows that are pairwise distinct. |
| Tables.FilterCounts | ApprovalRate.py:26-28 | A mask keeps each selected row as many times as it occurs and drops every other row. |
| Text.ContainsIgnoringCaseAt | ApprovalRate.py:28 | Case-insensitive containment holds exactly when some stretch of the text equals the pattern after lower-casing both. |
| Orders.ValidFailedIff | ApprovalRate.py:31 | A record is not a valid failure exactly when its error is missing or some stretch of it reads "bad scoring" in any case. Changing the status never changes the flag. |
| Tables.DropDuplicates | ApprovalRate.py:34 | The result has the same set of keys as the input, no two rows share a key, and it is no longer than the input. |
| Tables.DropDuplicatesKeepsFirst | ApprovalRate.py:34 | The result is the subsequence made of the first row of each key, in input order. |
| Tables.DropDuplicatesIdempotent | ApprovalRate.py:34 | Deduplicating twice gives the same table as deduplicating once. |
| Tables.GroupBySize | ApprovalRate.py:40 | One group per present key value. Each group's size is the number of rows with that key, at least one. |
| Tables.SumGroupBySize | ApprovalRate.py:40 | The group sizes add up to the number of rows whose key is present. |
| Failures.FailureGroupAt | ApprovalRate.py:37-40 | Group (user, partner, day, error) exists exactly when a valid failure with a parsed timestamp on that day has that key. Its size is the number of such records, at least one. |
| Failures.FailureGroupsMeaning | ApprovalRate.py:37-40 | For all keys: one group per distinct key among valid failures with a date, each of size at least one, with sizes summing to the number of valid failures with a date. |
| Failures.SurvivingFailuresIff | ApprovalRate.py:43-45 | A group survives exactly when no success of the same user and partner has the group's date. Survivors keep their size, and the `error_count > 0` test removes nothing. |
| Failures.SuccessOwnGroupSuppressed | ApprovalRate.py:31-45 | A success with a dated error other than "bad scoring" forms a failure group, and its own success always suppresses that group. |
| Failures.GroupedErrorRowsMeaning | ApprovalRate.py:40 | The rows of `grouped_errors` are pairwise distinct, and a key is among them exactly when it is a failure group. |
| Failures.FailedFilteredRowsMeaning | ApprovalRate.py:43-45 | The rows left after the anti-join are pairwise distinct, and a key is among them exactly when its group survives. |
| Failures.FailedCountAt | ApprovalRate.py:49 | A pair has a failure count exactly when some surviving group belongs to it. The count is the number of its surviving groups, whatever their sizes. |
| Failures.FailedCountsTotal | ApprovalRate.py:49 | The failure counts of all pairs add up to the number of surviving groups. Each group counts once. |
| Failures.SuccessCountAt | ApprovalRate.py:48 | A pair has a success count exactly when it has a success record. The count is that pair's number of success records, or zero when there are none. |
| Failures.PairCountsMeaning | ApprovalRate.py:48-53 | A pair has a row exactly when it has a success or a surviving failure group. `successful` counts its success records and `failed` its surviving groups, a missing side being zero. `total` is their sum and at least one. |
| Failures.PairCountsConsistent | ApprovalRate.py:52-53 | Every merged row has `total = successful + failed >= 1`. |
| Countries.CountryRowsMeaning | ApprovalRate.py:56 | The country rows are pairwise distinct, and they are exactly the (user, partner, code) triples that occur in the records. |
| Countries.EveryPairHasCountryRow | ApprovalRate.py:56-58 | Every pair with counts meets at least one country row, so the left merge loses no pair. |
| Countries.JoinMembership | ApprovalRate.py:57-58 | A merged row comes from a country row whose pair has counts. It carries that pair's counts and the name its code resolves to. |
| Countries.CountryFanOut | ApprovalRate.py:56-58 | For a pair with counts and a country name, the merge holds one row per distinct code of the pair that resolves to that name. |
| Countries.SumByCountryAt | ApprovalRate.py:61-65 | A name has a summary entry exactly when some merged row resolves to it; rows with no name are dropped. Each column of the entry is the sum of that column over the name's rows. |
| Countries.SumByCountryMeaning | ApprovalRate.py:61-65 | The same two facts, for every name at once. |
| Countries.SumCountsConsistent | ApprovalRate.py:61-65 | Summing rows with `total = successful + failed >= 1` keeps the identity and gives a total at least the number of rows. |
| Countries.CountrySummaryMeaning | ApprovalRate.py:56-65 | A country has a summary row exactly when some record of a pair with counts has a code resolving to it. Every summary row has `total = successful + failed >= 1`, and every pair with counts reaches the merged table. |
| Report.RoundHalfEven | ApprovalRate.py:72-73 | The result is within half a unit of `num / den`, and an exact tie goes to the even neighbour. |
| Report.RoundHalfEvenUnique | ApprovalRate.py:72-73 | No other whole number meets those two conditions, so the rounding is determined by them. |
| Report.AcceptanceRateBounds | ApprovalRate.py:66-72 | With `successful <= total`, the rounded rate is at most 100, and it is exactly 100 when every transaction succeeded. |
| Report.FormatReport | ApprovalRate.py:69-74 | One row per country that passes the sample rule, in strictly increasing code-point order of name. Each row's counts are its country's sums. |
| Report.ReportListsAt | ApprovalRate.py:69 | A country is listed exactly when it has a summary row with `total >= 50` or with every transaction a success. |
| Report.ReportRates | ApprovalRate.py:72-73 | Every printed rate has the form of `str(n) + "%"`: digits with no leading zero, then `%`. It reads back as the half-to-even rounding of `100 * successful / total`. |
| Report.RowRateText | ApprovalRate.py:72-73 | In a consistent row the rate text is exactly the rendering of the rounded percentage, so no other text such as "007%" can stand there. |
| Report.ReportRowFacts | ApprovalRate.py:66-74 | For a summary whose rows satisfy `total = successful + failed`, every listed row keeps that sum, is positive, passes the sample rule and shows a rate between 0 and 100. |
| Report.CountryReportMeaning | ApprovalRate.py:56-74 | Each row of the listing is internally consistent and names a country that some record of a pair with counts resolves to. |
| Report.AcceptanceReportMeaning | ApprovalRate.py:24-74 | For the whole script: countries in strictly increasing order, each named by a selected, deduplicated record whose pair has counts. Every row has `total = successful + failed >= 1`, meets the sample rule, and shows a rate of at most 100, in canonical form, that reads back from its text. |
| Text.SortedNames | ApprovalRate.py:74 | The listing holds every name of the set exactly once, in strictly increasing Python string order. |
| Text.ParsePercentText | ApprovalRate.py:73 | The text `str(n) + "%"` parses back to `n`. |
| Text.PercentTextUnique | ApprovalRate.py:73 | A text of digits with no leading zero followed by `%` that reads as `n` is `str(n) + "%"` itself. |

## Left out

- Loading the CSV file (`ApprovalRate.py:12`) and parsing timestamps with `to_datetime(errors='coerce')` (`ApprovalRate.py:15`) are library I/O and parsing. Records arrive already parsed, and an unparseable timestamp is `None`.
- `read_csv` reads the code "NA" (Namibia) as a missing value. This belongs to the loader, so the model receives whatever the loader produced.
- The `pycountry` lookup (`ApprovalRate.py:5-9`) is a foreign library. It is the parameter `countryName`, and a lookup that raises is a `None` result.
- Printing and pandas display options (`ApprovalRate.py:77-84`) are presentation only.
- Orders.SelectProvider: requires every provider to be present when the selector is `safecharge`. On a missing provider pandas refuses the mask and raises, and the model does not model that exception.
- Text.ContainsIgnoringCase: lower-cases ASCII letters only and searches for a plain substring. Python's Unicode case folding is not modelled; the two patterns here are plain lower-case ASCII.
- Orders.ValidFailed: when the `error` column has no value at all, pandas gives it a non-string type and `.str` raises. The model treats such a column as all missing errors, so no record is a valid failure.
- Report.AcceptanceRate: uses exact rational arithmetic, not floating point. For very large counts, or exactly at .5, the float `successful / total * 100` can round differently from the exact value.
- Report.MeetsSampleRule: states "rate equals 100" as `successful == total`. Below 50 transactions the float comparison agrees exactly, since a ratio below one cannot reach 100.0 at those sizes. Above that the rule keeps the row anyway.
- `user_id` and `partner_id` are always-present strings in the model. A missing value there would make the groupings of `ApprovalRate.py:40`, `:48` and `:49` drop that row, and the merges on these columns match missing values with one another; neither is modelled.
- Row order inside intermediate tables is not modelled; the groupings and merges are maps. Only the final listing's order is stated.
- The float dtype that `fillna(0)` gives the count columns, and the integer cast of line 72, are not modelled. Counts are natural numbers throughout.
