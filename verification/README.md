# fastlydash report core, in Dafny

`fastlydash.py` fetches the Fastly service list and the last 24 hours of
statistics, builds one report row per service, renders an HTML dashboard,
optionally uploads it to S3 and prints a table. This project models the pure
part of that pipeline:

- `get_all_services`' dictionary comprehension, which turns the decoded list
  of `{name, id}` services into the service directory `{name: id}`
  (`directory.dfy`, module `Directory`);
- `sizeof_fmt`, which picks a binary unit prefix for a byte count
  (`size_format.dfy`, module `SizeFormat`);
- Python's `int()` truncation and the status-class percentage
  `int(100 * (count / float(requests)))` (`truncation.dfy`, module `Truncation`);
- the loop of `write_fastly_summary` that joins the directory with
  `stats['data']` by service id and builds the rows (`report.dfy`, module
  `Report`), and the properties of the resulting report
  (`report_properties.dfy`, module `ReportProperties`).

`wrappers.dfy` holds the `Option` and `Result` types, and `magnitude.dfy` the absolute value of a real (Python's `abs`).

Modelling decisions:

- The directory, a Python dictionary, is a sequence of `(name, id)` entries
  with distinct names in iteration order. `FromList` inserts in list order:
  a new name goes at the end, and a repeated name overwrites its id in place.
  That is insertion-ordered dictionary behaviour. The script runs under
  Python 2, whose dictionaries iterate in hash order. So every report property
  is stated for an arbitrary directory sequence, and none depends on the order.
- An exception that ends the run is a `Failure` in a `Result`, not a
  precondition:
  - an empty record list for a present id raises `IndexError` at `[0]`;
  - a zero request count raises `ZeroDivisionError` in the first status
    percentage.
  The failure reported is that of the first such service in directory order.
- A record's raw hit ratio is `Option<real>`, where `None` is JSON null.
  "Falsy" means null or exactly 0, and such a value shows as Python `None`
  (`NoneVal`), which is distinct from the `'-'` sentinel (`Dash`).
- Arithmetic is exact over reals. `int()` is truncation toward zero, written
  out explicitly (`Truncation.Trunc`), because Dafny's `Floor` rounds down.
- `sizeof_fmt`'s result is kept abstract as `HumanSize(value, unitIndex,
  suffix)`. `unitIndex` 0–7 selects `''`, K, M, G, T, P, E or Z, and 8 selects
  Yi.

A service that is present in the statistics but reports zero requests is not
given sentinel percentages: the script divides unguarded, and the run aborts
with ZeroDivisionError. The model keeps that behaviour
(`ReportProperties.ZeroRequestsAbort`).

## Model

| member | source | states |
|---|---|---|
| `Directory.Lookup` | fastlydash.py:200 | `services[service]` finds nothing exactly when the name is not a key, and otherwise yields an id stored with that name |
| `Directory.LookupOwnEntry` | fastlydash.py:197-200 | with distinct names, looking up the key being visited yields the id stored in that same entry, so the loop's `services[service]` is the entry's own id |
| `Directory.Put` | fastlydash.py:161 | assigning `d[name] = id` makes name a key (key set grows by exactly that name), maps it to id, leaves every other key's lookup unchanged, and grows the entry count only for a new name |
| `Directory.PutKeepsDistinct` | fastlydash.py:161 | assigning a key never creates a duplicate key |
| `Directory.FromList` | fastlydash.py:161 | the directory's keys are exactly the names in the service list, each once, so its size is the number of distinct names |
| `Directory.FromListIsDict` | fastlydash.py:161 | the directory agrees with the dictionary comprehension evaluated as successive assignments: same keys, same ids |
| `Directory.LastOccurrenceWins` | fastlydash.py:161 | for a name listed more than once, the id of its last occurrence is the one kept |
| `Directory.DistinctNamesCount` | fastlydash.py:161 | a directory without duplicate keys has as many entries as keys |
| `SizeFormat.ScaleFrom` | fastlydash.py:178-182 | the loop stops at the first unit whose scaled value is below 1024, else after Z with the value divided eight times; the value returned is the input expressed in the unit reached |
| `SizeFormat.SizeofFmt` | fastlydash.py:177-182 | the suffix is appended unchanged; the unit is the first of '', K, …, Z that fits, with no earlier unit fitting, or Yi when none fits; the value is the byte count divided by 1024 once per unit step |
| `SizeFormat.UnitIsLeastFit` | fastlydash.py:178-182 | conversely, any index that is the least fitting unit (or 8 when none fits) is the index chosen, so the unit is uniquely determined |
| `SizeFormat.FitsIffBelowPower` | fastlydash.py:179-181 | unit k fits exactly when the absolute byte count is below 1024^(k+1) |
| `SizeFormat.FitsUpward` | fastlydash.py:178-181 | once a unit fits, every larger unit fits as well |
| `SizeFormat.ScaledRoundTrip` | fastlydash.py:181 | dividing k times by 1024 and multiplying by 1024^k returns the original value |
| `SizeFormat.ScaledKeepsSign` | fastlydash.py:179-181 | repeated division keeps the sign, and zero stays zero |
| `SizeFormat.ScaledMonotone` | fastlydash.py:181 | a larger magnitude stays at least as large after the same number of divisions |
| `SizeFormat.SizeofFmtKeepsSign` | fastlydash.py:179-182 | the value shown is negative or zero exactly when the byte count is, because only the comparison takes the absolute value |
| `SizeFormat.SizeofFmtAtLeastOne` | fastlydash.py:178-181 | with any unit above bytes, the value shown is at least 1 in magnitude, and with any unit other than Yi it is below 1024 |
| `SizeFormat.SizeofFmtUnitMonotone` | fastlydash.py:178-182 | a byte count of larger magnitude never gets a smaller unit |
| `SizeFormat.SizeofFmtExamples` | fastlydash.py:177-182 | 0 is 0.0 bytes; 1024 is 1.0 K; 1536 is 1.5 K; 2048 is 2.0 K; 2^30 is 1.0 G |
| `Truncation.Trunc` | fastlydash.py:202 | `int()` of a number is the integer nearest to it toward zero: within 1 of it, never past it, with the same sign |
| `Truncation.TruncUnique` | fastlydash.py:202 | an integer that meets those bounds is the truncation |
| `Truncation.TruncOfQuotient` | fastlydash.py:211-214 | truncating an exact quotient of integers equals integer division rounding toward zero, for every sign combination |
| `Truncation.Percent` | fastlydash.py:211-214 | `int(100 * (count / float(requests)))` equals the integer quotient of 100 × count by requests, rounded toward zero, for every sign of either operand |
| `Truncation.PercentBounds` | fastlydash.py:211-214 | a count between 0 and the request total gives a percentage in [0, 100]: 100 for the whole total, 0 for none |
| `Truncation.PercentTimesTotal` | fastlydash.py:211-214 | a non-negative share, once truncated, is non-negative and never exceeds its exact value |
| `Truncation.PercentSumAtMost100` | fastlydash.py:211-214 | four non-negative class counts whose sum is within the request total have percentages that add up to at most 100 |
| `Magnitude.Abs` | fastlydash.py:179 | `abs(num)` is non-negative, is num or its negation, and is num itself for non-negative num |
| `Report.HitRatioCell` | fastlydash.py:201-207 | never '-'; None exactly when the raw ratio is null or 0 (Python falsiness); otherwise an integer within 1 of 100 × ratio toward zero, never of the opposite sign, and in [0, 100] for a ratio in (0, 1] |
| `Report.MakeRow` | fastlydash.py:198-219 | the row keeps the service name; without statistics it is the all-'-' row; with statistics no field is '-'; it fails exactly when the id's record list is empty or its first record has zero requests, and the failure names that id |
| `Report.BuildReport` | fastlydash.py:195-232 | succeeds exactly when every service's row can be built; then there is one row per directory entry, in order, and row i is service i's row; otherwise the failure is that of the first service whose row fails |
| `Report.WriteSummary` | fastlydash.py:232-245 | the run produces a summary exactly when the report is built; its rows are the report rows themselves (`service_data`, handed to the template); the count printed equals the number of rows and of directory entries; a failed run carries the report's failure |
| `ReportProperties.ReportSucceedsIff` | fastlydash.py:200-214 | the run completes exactly when every service either has no statistics or has a first record with non-zero requests |
| `ReportProperties.ReportFailsAtFirstBadService` | fastlydash.py:201-214 | a failed run names the first such service in directory order: IndexError for an empty record list, ZeroDivisionError for zero requests |
| `ReportProperties.RowOutcome` | fastlydash.py:200-214 | one service's row is built exactly when it has no statistics or a first record with non-zero requests; otherwise it raises IndexError for an empty record list and ZeroDivisionError for zero requests |
| `ReportProperties.RowNamesAreKeys` | fastlydash.py:197-198 | the set of row names is exactly the directory's key set |
| `ReportProperties.RowsFollowDirectory` | fastlydash.py:195-198 | one row per directory entry, row i named by directory key i, and the printed count equals the directory size |
| `ReportProperties.MissingStatsAreDashes` | fastlydash.py:198-219 | a service whose id is not in the statistics has '-' in every metric field |
| `ReportProperties.PresentStatsPassThrough` | fastlydash.py:200-210 | with statistics, bandwidth and requests are copied from record [0], the size cell is `sizeof_fmt(bandwidth)`, the hit ratio comes from the raw ratio, and no metric is '-' |
| `ReportProperties.HitRatioShown` | fastlydash.py:201-207 | a null or zero raw ratio shows as None, not '-'; a ratio in (0, 1] shows as an integer in [0, 100] |
| `ReportProperties.StatusPercentages` | fastlydash.py:211-214 | each status cell is 100 × class count divided by requests, rounded toward zero; for sane counts each is in [0, 100] and the four add up to at most 100 |
| `ReportProperties.ReportCoversServiceList` | fastlydash.py:161-232 | built from a decoded service list, the report has one row per distinct service name, and its row names are exactly those names |
| `ReportProperties.TwoServiceExample` | fastlydash.py:195-232 | for services a→"1" and b→"2" with statistics for "1" only, the rows are (a, 92, 2048, 2.0 K, 100, 90, 5, 3, 2) and b's all-'-' row |
| `ReportProperties.ZeroRequestsAbort` | fastlydash.py:200-214 | in any directory, a service whose first record reports zero requests, with every earlier service buildable, aborts the run with ZeroDivisionError naming that service's id |

## Left out

- HTTP requests (`make_api_request`, `get_all_services`, `get_statistics`, fastlydash.py:133-175) are network I/O. Only their decoded JSON is modelled, as the service list and `stats['data']`.
- A missing JSON key would raise `KeyError`: `stats['data']` itself, a field of a record, or the `name` or `id` of a service-list entry (fastlydash.py:161). The model assumes every decoded service entry has both fields and every record has all fields, with null allowed only for the hit ratio.
- JSON numbers sent as strings are not modelled. For example, `"0.0"` is truthy in Python.
- The S3 upload through boto (fastlydash.py:236-242) is a foreign library and I/O.
- The Jinja HTML template, its inline JavaScript and the rendering call (fastlydash.py:12-130, 234) are third-party rendering and client-side code.
- The PrettyTable rows and `sortby="Hit Ratio"` printing (fastlydash.py:193, 221-230, 244) are not modelled. The sort order lives in a library, and under Python 2 it compares a mixed column of '-', None and integers.
- Argument parsing, logging and the `time.strftime` timestamp (fastlydash.py:184-188, 219, 247-259) are CLI and environment plumbing.
- Binary floating point is not modelled; arithmetic is exact. For example, `int(100 * (29 / 100.0))` is 28 in floats but 29 over the reals.
- The `%3.1f` and `%.1f` decimal rendering of the size value is not modelled. `SizeofFmt` returns the exact value, unit and suffix.
- Directory iteration order under Python 2 is hash order. The model fixes insertion order for `FromList`, and states every report property for any order.
