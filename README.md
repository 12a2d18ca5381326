# spam_finder, modelled in Dafny

`spam_finder.py` is a script that does the following:
- loads a set of wanted FIDs (Farcaster user ids) from a text file;
- downloads the Warpcast spam-label feed (one JSON object per line);
- keeps the records whose `type.fid` is wanted;
- writes them to a CSV report with a description, an OK/SPAM status and a readable UTC date for each;
- prints a sample date conversion and the number of matched records at each label level.

This project models the deterministic core of that script and proves what it does:

| module | file | models |
|---|---|---|
| `Wrappers`, `Errors` | `wrappers.dfy` | `Option`/`Result`, and the two ways a row can fail: a missing key (Python's `KeyError`), or a timestamp outside the years 1..9999 (the `ValueError`/`OverflowError` of `utcfromtimestamp`) |
| `PyText` | `pytext.dfy` | `str.strip()` with its exact whitespace set; `str(n)` for integers; the zero-padded fields of `strftime` |
| `Records` | `records.dfy` | a decoded feed line, cut down to `type.fid`, `label_value` and `timestamp`; `fid` is a JSON number or string, rendered with `str` |
| `FidLoader` | `fid_loader.dfy` | `read_fids_from_file` on the lines of the file |
| `Matcher` | `matcher.dfy` | `find_matching_records`, as a loop proved against a filter function |
| `Labels` | `labels.dfy` | `get_label_description` and the OK/SPAM rule |
| `Timestamps` | `timestamps.dfy` | `convert_timestamp` |
| `Report` | `report.dfy` | the row loop of `save_results`, as a loop proved against a recursive row function |
| `Summary` | `summary.dfy` | the label tally of `main`, as a loop over a dictionary proved against count functions |
| `Pipeline` | `pipeline.dfy` | `main` without printing: the steps chained, the sample conversion, the tally |

Seconds since the epoch follow POSIX.1-2017, Base Definitions, section 4.16: days of 86400 seconds and the proleptic Gregorian calendar. `Timestamps.EpochSecondsMatchesPosix` proves that the model agrees with that section's formula from 1970 onwards. The script gets the broken-down time from `utcfromtimestamp`, which asks the platform `gmtime` for it. The model computes the same proleptic Gregorian date with the period split of CPython's ordinal-to-date conversion, in 400-, 100-, 4- and 1-year periods. That conversion is proved to be the inverse, in both directions, of a day count defined independently by adding up year lengths. So every day number has exactly one valid date, and every in-range timestamp has exactly one valid UTC time.

Three behaviours of the code that the model keeps:
- `save_results` stops at the first record without `label_value` or `timestamp`, or with a timestamp outside the years 1..9999. The rows before that record have already been handed to the CSV writer. `Report.WriteRows` returns those rows together with the failure.
- A `label_value` outside 0..2 is counted in no bucket of the tally, yet the report calls it SPAM.
- The status is decided by `label_value == 2`, not by the description text.

## Model

| member | source | states |
|---|---|---|
| FidLoader.StrippedIds | spam_finder.py:9 | the list comprehension keeps at most one id per line |
| FidLoader.LoadFids | spam_finder.py:9-10 | the set has no more FIDs than the file has lines |
| FidLoader.StrippedIdsMembership | spam_finder.py:9 | an id is in the comprehension's list iff it is non-empty and is the stripped form of some line |
| FidLoader.LoadFidsMembership | spam_finder.py:9-10 | the loaded set holds exactly the non-empty stripped lines and nothing else |
| FidLoader.LoadFidsStripped | spam_finder.py:9-10 | every loaded FID is non-empty and stripping it again changes nothing |
| FidLoader.StrippedIdsConcat | spam_finder.py:9 | the comprehension over two concatenated parts of a file is the concatenation of the two results |
| FidLoader.LoadFidsConcat | spam_finder.py:9-10 | loading two concatenated parts of a file gives the union of the two sets, so duplicates collapse and order does not matter |
| PyText.StripShape | spam_finder.py:9 | `strip()` returns the infix that only whitespace surrounds and that neither starts nor ends with whitespace |
| PyText.StripEmptyIff | spam_finder.py:9 | a line strips to empty iff it is all whitespace, i.e. exactly the lines the `if line.strip()` filter drops |
| PyText.StripIdempotent | spam_finder.py:9 | stripping twice is stripping once |
| PyText.NatToDecimal | spam_finder.py:43 | `str(n)` for n >= 0 is all digits, has no leading zero and reads back as n |
| PyText.IntToDecimal | spam_finder.py:43 | `str(n)` is the canonical decimal text of n: it reads back as n, starts with '-' iff n < 0, and its digits have no leading zero unless n is 0 |
| PyText.IntToDecimalInjective | spam_finder.py:29 | different integers have different decimal texts |
| PyText.ZeroPad | spam_finder.py:48 | a `strftime` numeric field has exactly its width, consists of digits and reads back as the number |
| Records.FidText | spam_finder.py:29 | `str(fid)` is the string itself for a string FID; for a numeric FID it is the canonical decimal text (sign only for negatives, no leading zero) that reads back as the number |
| Matcher.MatchFilter | spam_finder.py:25-30 | the filter by the `if` condition (the predicate `Matches`: `type` present, `fid` in it, `str(fid)` wanted) returns no more records than the feed holds, and every record it returns meets the condition |
| Matcher.FindMatchingRecords | spam_finder.py:21-32 | the append loop returns exactly the filter of the feed by the `type`/`fid`/membership condition |
| Matcher.MatchFilterPositions | spam_finder.py:23-32 | the result is the feed with the non-matching records deleted: record k of the result is feed record idx[k], the idx are strictly increasing, and a position is among them iff its record matches |
| Matcher.MatchSound | spam_finder.py:27-30 | every returned record has a `type` with a `fid` whose string form is wanted |
| Matcher.MatchComplete | spam_finder.py:25-30 | every feed record whose `type.fid` string is wanted is returned |
| Matcher.MatchSkipsIncomplete | spam_finder.py:27-28 | a record without `type`, or without `fid` in it, is never returned and raises nothing |
| Matcher.MatchFilterIdempotent | spam_finder.py:21-32 | filtering the result again returns it unchanged |
| Labels.LabelDescription | spam_finder.py:34-43 | levels 0, 1 and 2 get their fixed texts "Level 0: Worst Label", "Level 1: Limbo Label" and "Level 2: Best Label"; every other integer gets "Unknown Level: " followed by its canonical decimal text (`str(n)`: reads back as the level, a sign only for negatives, no leading zero) |
| Labels.Status | spam_finder.py:68 | the status is "OK" iff the label value is 2, and "SPAM" for every other integer, unknown levels included |
| Labels.DescriptionRoundTrip | spam_finder.py:34-43 | every integer's description, known or unknown, reads back as that integer |
| Labels.DescriptionInjective | spam_finder.py:34-43 | two levels with the same description are equal |
| Labels.UnknownDescriptionIff | spam_finder.py:42-43 | a description starts with "Unknown Level: " iff the level is not 0, 1 or 2 |
| Labels.StatusAgreesWithDescription | spam_finder.py:68 | the status is OK iff the description is the best level's |
| Timestamps.MonthDay | spam_finder.py:47 | walking the months yields a valid date in the given year, the given number of days after the month's first |
| Timestamps.CivilFromDayNumber | spam_finder.py:47 | every day number yields a valid date: month 1..12, day within the month's length |
| Timestamps.ToUtc | spam_finder.py:47 | every integer timestamp yields a valid date and time: hour < 24, minute < 60, second < 60 |
| Timestamps.FormatUtc | spam_finder.py:48 | the rendering is always 23 characters long |
| Timestamps.ConvertTimestamp | spam_finder.py:45-48 | a converted text is 23 characters long and ends in " UTC"; a failure reports the timestamp it could not convert (domain and meaning: see `Timestamps.ConvertTimestampDomain`, `Timestamps.ConvertTimestampRoundTrip`) |
| Timestamps.DaysBeforeYearFormula | spam_finder.py:47 | the summed year lengths equal the closed leap-year formula |
| Timestamps.DayNumberRoundTrip | spam_finder.py:47 | the date found for a day number has that day number |
| Timestamps.ToUtcRoundTrip | spam_finder.py:47 | the broken-down time, counted back as seconds since the epoch, is the input timestamp |
| Timestamps.ToUtcOfEpochSeconds | spam_finder.py:47 | the other direction: a valid UTC time is the one found for its own seconds since the epoch, so no other valid time stands for that timestamp |
| Timestamps.DayNumberOrder | spam_finder.py:47 | day numbers follow calendar order (year, then month, then day) |
| Timestamps.DayNumberInjective | spam_finder.py:47 | two valid dates have the same day number iff they are the same date |
| Timestamps.CivilOfDayNumber | spam_finder.py:47 | the other direction of `DayNumberRoundTrip`: the date found for a valid date's day number is that date |
| Timestamps.DateWithinYear | spam_finder.py:47 | a valid date's day number lies between January 1 of its year and January 1 of the next |
| Timestamps.DateYearRange | spam_finder.py:47 | a valid date lies in the years 1..9999 iff its day number is in 0..3652058 |
| Timestamps.DayNumberYearRange | spam_finder.py:47 | the date found for a day number lies in the years 1..9999 iff the day number is in 0..3652058 |
| Timestamps.ConvertTimestampDomain | spam_finder.py:45-48 | the conversion succeeds iff the timestamp lies from 0001-01-01 00:00:00 to 9999-12-31 23:59:59 UTC |
| Timestamps.FormatUtcRoundTrip | spam_finder.py:48 | every field is zero-padded to fixed width with fixed separators and the " UTC" suffix, so the text parses back to the same date and time |
| Timestamps.ConvertTimestampRoundTrip | spam_finder.py:45-48 | for every timestamp in range, the text parses to a valid UTC time whose seconds since the epoch are the input |
| Timestamps.ConvertedTextRoundTrip | spam_finder.py:45-48 | any text the conversion returns parses to a valid UTC time denoting the input timestamp |
| Timestamps.FormatEpoch | spam_finder.py:48 | 1970-01-01 00:00:00 renders as "1970-01-01 00:00:00 UTC" |
| Timestamps.ConvertTimestampEpoch | spam_finder.py:45-48 | timestamp 0 converts to "1970-01-01 00:00:00 UTC" |
| Timestamps.EpochSecondsMatchesPosix | spam_finder.py:47 | from 1970 on, the model's seconds since the epoch equal the formula of POSIX.1-2017 section 4.16 |
| Report.BuildRow | spam_finder.py:63-72 | a built row carries the record's own `label_value` and `timestamp`; a failure is a missing key or the record's own timestamp out of range (the FID copy and the exact success condition: see `Report.BuildRowSpec`) |
| Report.RowCells | spam_finder.py:74 | a written row has as many cells as the header: six |
| Report.BuildRowSpec | spam_finder.py:62-74 | a row is built iff the record has `type.fid`, `label_value` and `timestamp` and the timestamp is in range; FID, label and timestamp are copied unchanged, and the description, status and date are derived from them |
| Report.BuildRowFirstMissingKey | spam_finder.py:63-69 | the KeyError names the first missing key in the order the loop body reads them: type, fid, label_value, timestamp |
| Report.RowCellsRoundTrip | spam_finder.py:59-74 | the six cells, in header order, read back to the record's FID text, label value, level, status rule and timestamp |
| Report.DerivedCellsRoundTrip | spam_finder.py:65-72 | the description, status and date cells denote the row's label value and timestamp |
| Report.WriteRows | spam_finder.py:62-74 | the rows written number at most the records, and the loop finishes without error iff it wrote one row per record |
| Report.WriteRowsIndexed | spam_finder.py:62-74 | written row k is record k's row, and when the loop stops, the record after the last row written is the one whose row failed with that error |
| Report.SaveResults | spam_finder.py:59-74 | the loop hands the writer exactly the rows of `WriteRows`, and stops with the same failure |
| Summary.Tally | spam_finder.py:105 | the dictionary has exactly the three level keys |
| Summary.TallyLabels | spam_finder.py:105-113 | the loop succeeds iff every record has a label, its dictionary is then the per-level counts, and otherwise it fails with KeyError('label_value') |
| Summary.TallyPartition | spam_finder.py:105-113 | every record is counted in exactly one bucket or in none |
| Summary.UncountedZeroIff | spam_finder.py:107-113 | no record goes uncounted iff every label is 0, 1 or 2 |
| Summary.TallySum | spam_finder.py:105-113 | the buckets sum to at most the number of matched records, and to exactly that number iff every label is 0, 1 or 2 |
| Summary.CountLabel | spam_finder.py:106-113 | the number of records whose label is the given level is at most the number of records (partition: see `Summary.TallyPartition`) |
| Summary.CountLabelCons | spam_finder.py:106-113 | a level's count is the first record's contribution plus the count over the remaining records |
| Summary.StatusColumnAgreesWithTally | spam_finder.py:68 | in a fully written report, the OK rows number the "Level 2 (Best)" count, and every other row says SPAM |
| Summary.WrittenReportIsLabelled | spam_finder.py:64 | once the report is fully written, the tally loop cannot raise KeyError |
| Pipeline.ReportedFidsAreWanted | spam_finder.py:92-96 | every report row carries the FID of a feed record that matches, and its string form is wanted |
| Pipeline.RunPipeline | spam_finder.py:76-113 | `main`'s steps: the rows of the matched records, the tally or the error that ended the run, a sample iff a matched record exists and all rows were written, and the sample is the first row's date text |

## Left out

- Network access: the HTTP GET, the status-code check, splitting the body into lines and `json.loads`. `main` receives the decoded feed as a parameter (`spamData`).
- Opening and reading the FID file. `read_fids_from_file` receives the file's lines.
- `csv.writer` quoting, line endings, the `utf-8-sig` byte-order mark, and writing the header row. The header is the constant `Report.Header`, and `Report.SaveResults` returns the rows that follow it.
- Console output in `main`, including the per-bucket OK/SPAM words printed from the key names and Python's dictionary iteration order. The sample conversion is returned rather than printed.
- JSON values the script does not expect: a feed line that is not a JSON object, a non-object `type`, a `fid` that is a float, boolean or null, and floating-point `label_value` or `timestamp`. `fid` is a number or a string; labels and timestamps are integers.
- `str.strip()` is modelled on code points with CPython's whitespace set. Reading the file with `readlines` and a platform encoding is not modelled.
- Timestamps.FormatUtc: `%Y` is zero-padded to four digits, as CPython does on most platforms. Some C libraries write years before 1000 with fewer digits; that variant is not modelled.
- Timestamps.ConvertTimestamp: CPython's different out-of-range errors (`ValueError`, `OverflowError`, `OSError` from the platform `gmtime`) are one error value, `TimestampOutOfRange`. Platforms whose `gmtime` rejects a narrower range than the years 1..9999 are not modelled.
- The local time zone plays no part: `utcfromtimestamp` ignores it, and so does the model.
