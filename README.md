# Last.fm listening-history pipeline, modelled in Dafny

The pipeline has four stages. Each stage runs as its own script and reads the previous stage's output file.

1. **Fetch** (`Fetch`) pages through the `user.getrecenttracks` API.
   - Page 1 is requested once. Any status but 200 ends the run, and nothing is written.
   - Otherwise page 1 is saved as `page_00001.json`, and pages 2..totalPages are fetched in order.
   - The retry loop gives each later page up to six attempts. After a 500, 502, 503 or 504 on attempt k < 6, the script sleeps 30·k seconds and tries again.
   - Any other status, or a transient one on the sixth attempt, ends the run on that page.
   - Each successful page is saved as `page_NNNNN.json`.
   - The network is a `Server` function from (page, attempt) to a status code. The run is recorded as a trace of `Request`, `Wait` and `Write` events.
2. **Flatten** (`Flatten`) turns the page files into rows.
   - It globs `page_*.json` and sorts the names by Python's `str` order.
   - It reads each file's page number back from its name with `int(stem.split("_")[1])`.
   - It turns each track into a nine-field row in a fixed order, with the lineage fields `source_page` and `source_file`. A track without `date`, `artist` or `album` gives `None` for those fields.
   - The header is the first row's keys, so a run without any track fails.
3. **Validate** (`Validate`) reads the interim CSV.
   - It insists on the exact nine-column header.
   - It counts blank values in `played_at_utc`, `track_name` and `artist_name`.
   - It counts `played_at_utc` values that `int()` rejects after `strip()`.
   - It counts duplicate (played_at_utc, track_name, artist_name) keys with a `Counter`.
   - Exit codes: 2 (missing file), 3 (header mismatch), 4 (some bad timestamp) or 0.
4. **Enrich** (`Enrich`) copies each interim row and adds seven UTC fields derived from `int(played_at_utc)`:
   - the canonical epoch text;
   - the ISO 8601 timestamp;
   - the date;
   - the year, the month, the weekday (Monday = 0) and the hour.
   - A row with no, a non-integer or an out-of-range timestamp raises. The run stops there, with exit status 1.

Supporting modules:

- `Text` models the Python built-ins the scripts use: `str.strip`, `int(str)`, `str(int)`, `format(n, "05d")`, `str.split` and `str` ordering.
- `Civil` is proleptic Gregorian calendar arithmetic: `datetime.fromtimestamp(e, tz=timezone.utc)`, `date.weekday()`, `isoformat()` and `strftime`.
- `Csv` is a CSV file as `csv.DictReader` presents it.
- `Pipeline` contains lemmas that connect the stages.

The three stages with loops (fetch, flatten, validate/enrich) are modelled as methods with `while` loops. Each method is proved equal to a specification function (`FetchAll`, `FlattenAll`, `Check`, `Process`), and the properties are lemmas about those functions.

Two behaviours of the code are easy to miss:

- The page-1 save happens before the paging loop. Even when totalPages is 0, `page_00001.json` is written (`Fetch.FirstPageWrittenFirst`).
- The flattener's order by file name is page order only for pages below 100000 (`Flatten.FileNameOrder`, `Flatten.FileNameOrderPastWidth`).

`int()` and `str.strip()` skip different whitespace. `int()` skips ASCII tab through carriage return, space, and non-ASCII Unicode whitespace. `strip()` also removes the separators U+001C..U+001F. So a timestamp cell such as "\x1c5" passes the validator (which strips first) and then raises in the enricher (which does not). `int()` also refuses more than 4300 digits, CPython's default limit.

## Model

| member | source | states |
|---|---|---|
| Fetch.Fetch | src/01-fetch-lastfm.py:40-97 | The paging and retry loops produce exactly the trace and outcome of the specification function FetchAll. |
| Fetch.ResumeStep | src/01-fetch-lastfm.py:70-88 | One turn of the retry loop has three exits: 200 writes the page and goes to the next one; a transient status before attempt 6 waits 30·k seconds and retries; anything else aborts. |
| Fetch.FirstPageRejected | src/01-fetch-lastfm.py:40-44 | A page-1 status other than 200 ends the run after one request, with that status and no page written. |
| Fetch.FirstPageWrittenFirst | src/01-fetch-lastfm.py:55-64 | On success, page 1 is written right after its single request and before any other request. With totalPages < 2 nothing else happens. |
| Fetch.AttemptsShape | src/01-fetch-lastfm.py:67-88 | The retry loop requests only its own page, at most six times, and writes nothing. An abort names that page and a non-200 status. |
| Fetch.PageRunShape | src/01-fetch-lastfm.py:64-94 | One page's run writes that page exactly once when it completes and never when it aborts. |
| Fetch.TransientThenOk | src/01-fetch-lastfm.py:74-82 | k < 6 transient statuses followed by 200: k+1 requests, the page written once, and 15·k·(k+1) seconds of waiting in total. |
| Fetch.RetriesExhausted | src/01-fetch-lastfm.py:78-88 | Five transient statuses followed by anything but 200: six requests, waits of 30, 60, 90, 120 and 150 seconds, an abort on that page, and the page not written. |
| Fetch.PagesRequests | src/01-fetch-lastfm.py:64-72 | Pages p..total: every request is for a page in that range, and no page is requested more than six times. |
| Fetch.PagesWritten | src/01-fetch-lastfm.py:64-94 | The pages written are exactly p up to the stopping page (excluded), or up to total when the run completes. An abort names a non-200 status. |
| Fetch.FetchAllShape | src/01-fetch-lastfm.py:40-97 | Page 1 is requested once, every page requested lies in 1..totalPages, and pages are written in increasing order: 1..p-1 on an abort at p, all pages on completion. |
| Fetch.FetchAllOrdered | src/01-fetch-lastfm.py:70-88 | Every wait directly follows a request answered 500/502/503/504 before attempt 6, and lasts 30 × that attempt's number. A fatal status is the last event, and the outcome names its page and status. |
| Fetch.RangeIncreasing | src/01-fetch-lastfm.py:64 | range(lo, hi) is strictly increasing, with element i equal to lo + i. |
| Fetch.PageFileName | src/01-fetch-lastfm.py:92 | f"page_{n:05d}.json" starts with "page_", ends with ".json", and the text in between is exactly format(n, "05d"), all digits. |
| Fetch.FirstPageFileName | src/01-fetch-lastfm.py:56 | The literal name used for page 1 equals the formatted name of page 1. |
| Text.IntSpaceIsSpace | src/04_make_processed.py:83 | Every character int() skips is str.isspace() whitespace, and every whitespace character other than U+001C..U+001F is skipped by int(). |
| Text.TrimStart | src/03_validate_interim.py:23 | For either whitespace class (strip()'s or int()'s): the suffix left after leading characters of that class only, not starting with one. For strip()'s class this is lstrip(). |
| Text.TrimEnd | src/03_validate_interim.py:23 | For either whitespace class: the prefix left before trailing characters of that class only, not ending with one. For strip()'s class this is rstrip(). |
| Text.TrimSplit | src/03_validate_interim.py:53 | Text splits into leading blanks, the trimmed text and trailing blanks, in that order. |
| Text.TrimPadding | src/03_validate_interim.py:53 | Blanks of a class around a value do not change its trim in that class. |
| Text.Strip | src/03_validate_interim.py:23 | strip() is no longer than its input, and neither end of the result is whitespace. |
| Text.StripEmptyIffAllSpace | src/03_validate_interim.py:23 | s.strip() == "" exactly when every character of s is whitespace. |
| Text.StripPadding | src/03_validate_interim.py:60-64 | Whitespace around a value does not change its strip(). |
| Text.TrimmedText | src/03_validate_interim.py:53 | A value without a blank of the class at either end trims to itself. |
| Text.NatToString | src/04_make_processed.py:90-93 | str(n) is non-empty decimal digits, with a leading '0' only for n == 0. |
| Text.NatToStringValue | src/04_make_processed.py:90-93 | The digits of str(n) denote n. |
| Text.IntToString | src/02_flatten_lastfm.py:39 | str(i) is str(\|i\|), with "-" in front for negative i. |
| Text.ZeroPad | src/01-fetch-lastfm.py:92 | format(n, "0wd") is all digits, has width max(w, \|str(n)\|), ends in str(n), and is '0' before that. |
| Text.ZeroPadValue | src/02_flatten_lastfm.py:53 | Zero-padded text denotes the number it pads. |
| Text.ZeroPadWidth | src/01-fetch-lastfm.py:92 | A number below 10^w pads to exactly w digits. |
| Text.ParseInt | src/03_validate_interim.py:54-57 | int() of all-whitespace text (the empty text too) raises. |
| Text.TooManyDigits | src/04_make_processed.py:83 | int() of more than 4300 digits raises ValueError. |
| Text.IntToStringRoundTrip | src/04_make_processed.py:83-87 | int(str(i)) == i for every integer whose digits are within the 4300-digit limit. |
| Text.ShortRoundTrip | src/04_make_processed.py:87-93 | int(str(i)) == i for every integer of at most 12 digits, which covers every epoch and date field the enricher writes. |
| Text.NegativeParse | src/04_make_processed.py:83-87 | A minus sign followed by digits parses as the negated digit value. |
| Text.ParseIntStripped | src/03_validate_interim.py:53-55 | Whatever int(s) accepts, int(s.strip()) accepts with the same value. Without U+001C..U+001F in s the two agree everywhere, refusals included. |
| Text.SeparatorNotSkipped | src/03_validate_interim.py:53-55 | A separator U+001C..U+001F before digits: strip() removes it and int() then reads the digits, but int() of the raw text raises. |
| Text.ParseIntPadding | src/04_make_processed.py:83 | int() ignores the whitespace it skips around its argument. |
| Text.ParseIntZeroPad | src/02_flatten_lastfm.py:53 | int() of zero-padded text within the digit limit gives back the number. |
| Text.CanonicalDigits | src/04_make_processed.py:83-87 | str(int(s)) == s for digit text without a leading zero. |
| Text.IntToStringCanonical | src/04_make_processed.py:87 | str(i) is canonical: digits with no leading zero ("0" itself included), or "-" before the digits of a positive number. |
| Text.CanonicalIsStr | src/04_make_processed.py:83-87 | Canonical text within the digit limit is accepted by int(), and str() of the result gives the text back. |
| Text.Split | src/02_flatten_lastfm.py:53 | split(sep) yields at least one piece, and no piece contains sep. |
| Text.SplitJoin | src/02_flatten_lastfm.py:53 | Joining the pieces with sep gives back the original text. |
| Text.SplitAt | src/02_flatten_lastfm.py:53 | A separator-free prefix followed by sep splits off as the first piece. |
| Text.SplitNone | src/02_flatten_lastfm.py:53 | Text without sep is a single piece. |
| Text.LexIrreflexive | src/02_flatten_lastfm.py:52 | Python's str `<` is irreflexive. |
| Text.LexAsymmetric | src/02_flatten_lastfm.py:52 | str `<` is asymmetric. |
| Text.LexTransitive | src/02_flatten_lastfm.py:52 | str `<` is transitive. |
| Text.LexTotal | src/02_flatten_lastfm.py:52 | Of two distinct strings, one is below the other. |
| Text.LexAppend | src/02_flatten_lastfm.py:52 | Comparing x+s with y+t, where \|x\| == \|y\|, is decided by x versus y first, then by s versus t. |
| Text.LexDigits | src/02_flatten_lastfm.py:52 | On digit runs of one length, str order is numeric order, and equality is numeric equality. |
| Civil.MonthsFillYear | src/04_make_processed.py:84 | The twelve months add up to the length of the year. |
| Civil.DaysBeforeYearFormula | src/04_make_processed.py:84 | Counting the years one by one gives the closed form 365k + k/4 - k/100 + k/400. |
| Civil.CycleDays | src/04_make_processed.py:84 | The days before year 1+400a+100b+4c+d, and whether that year is a leap year, follow from the 400/100/4/1-year cycles. |
| Civil.YearAndDay | src/04_make_processed.py:84 | Day n falls in a year y (y ≥ 1) at offset r, where r is below that year's length and days-before(y) + r == n. |
| Civil.FindMonth | src/04_make_processed.py:84 | The month and day found are valid and denote the same day of the year. |
| Civil.FromOrdinal | src/04_make_processed.py:84 | The date for ordinal o is valid and has ordinal o. |
| Civil.OrdinalInjective | src/04_make_processed.py:84 | Distinct valid dates have distinct ordinals. |
| Civil.FromOrdinalOfOrdinal | src/04_make_processed.py:84 | FromOrdinal inverts toordinal, so the two conversions are mutually inverse. |
| Civil.Weekday | src/04_make_processed.py:92 | date.weekday() lies in 0..6. |
| Civil.FromTimestamp | src/04_make_processed.py:84 | fromtimestamp succeeds exactly for 0001-01-01T00:00:00Z ≤ e ≤ 9999-12-31T23:59:59Z. The result is a valid UTC instant in years 1..9999 whose timestamp is e. |
| Civil.ToTimestampInjective | src/04_make_processed.py:84 | Distinct valid instants have distinct timestamps. |
| Civil.FromTimestampOfToTimestamp | src/04_make_processed.py:84 | Converting an in-range instant to a timestamp and back gives that instant. |
| Civil.NextDay | src/04_make_processed.py:92-93 | 86400 seconds later the weekday moves on by one (mod 7), and the hour, minute and second stay the same. |
| Civil.IsoTimestampShape | src/04_make_processed.py:88-89 | For years ≤ 9999 the timestamp is 20 characters, YYYY-MM-DDTHH:MM:SSZ, and its first 10 characters are the isoformat() date. Each of the six digit fields is its component zero-padded (year to 4, the rest to 2), and reads back as that component. |
| Civil.IsoDateShape | src/04_make_processed.py:89 | For years 1..9999 isoformat() is YYYY-MM-DD, with the year, month and day fields zero-padded and reading back as the date's values. |
| Civil.EpochInstant | src/04_make_processed.py:84 | Timestamp 0 is 1970-01-01 00:00:00, a Thursday (weekday 3). |
| Civil.EpochText | src/04_make_processed.py:88-90 | The Epoch formats as "1970-01-01T00:00:00Z", its date as "1970-01-01" and its year as "1970". |
| Flatten.TrackToRow | src/02_flatten_lastfm.py:26-41 | The row has the nine keys in the dict literal's order, with no repeated key, and the value of each field. |
| Flatten.TrackToRowFields | src/02_flatten_lastfm.py:27-41 | The lineage fields are the page number and file name passed in. A missing date, artist or album object gives None in its fields. |
| Flatten.FieldOrderListsAll | src/02_flatten_lastfm.py:31-41 | Every field appears in the dict literal, exactly once. |
| Flatten.FieldNameInjective | src/02_flatten_lastfm.py:31-41 | Distinct fields have distinct column names. |
| Flatten.Names | src/02_flatten_lastfm.py:70 | fieldnames lists the name of each key, in order. |
| Flatten.PageRows | src/02_flatten_lastfm.py:60-66 | One row per track, in track order, each track_to_row(track, page, file). |
| Flatten.Matching | src/02_flatten_lastfm.py:52 | glob keeps only names matching page_*.json, only files from the listing, and every matching file as often as the listing has it. |
| Flatten.SortedPages | src/02_flatten_lastfm.py:52 | sorted(glob(...)) is ordered by name and is a permutation of the matching files. |
| Flatten.SortByNamePermutes | src/02_flatten_lastfm.py:52 | The sort orders the listing by name and keeps every file: a permutation. |
| Flatten.InsertByNameSorted | src/02_flatten_lastfm.py:52 | Inserting into a sorted listing keeps it sorted. |
| Flatten.InsertByNamePermutes | src/02_flatten_lastfm.py:52 | Inserting adds exactly the one file. |
| Flatten.GatherStep | src/02_flatten_lastfm.py:52-66 | One turn of the page loop: a name int() rejects, or a page that does not parse, ends the stage. Otherwise the page's rows join the rows so far. |
| Flatten.Flatten | src/02_flatten_lastfm.py:50-70 | The loops over sorted pages and their tracks produce exactly FlattenAll's rows, header or failure. |
| Flatten.PageNumberOfFileName | src/02_flatten_lastfm.py:53 | The fetcher's name for page n matches the glob, and int(stem.split("_")[1]) reads back n, for any n of at most 4300 digits. |
| Flatten.PaddedOrder | src/02_flatten_lastfm.py:52 | Below 100000, five-digit padded numbers compare as the numbers do. |
| Flatten.FileNameOrder | src/02_flatten_lastfm.py:52-53 | For pages below 100000, name(m) < name(n) exactly when m < n, and the names are equal exactly when m == n. |
| Flatten.SameAffixes | src/02_flatten_lastfm.py:52 | The shared "page_" prefix and ".json" suffix leave the comparison, and equality, to the numbers in between. |
| Flatten.FileNameOrderPastWidth | src/02_flatten_lastfm.py:52 | Page 100000 sorts before page 20000: past five digits, name order is no longer page order. |
| Flatten.GatherCount | src/02_flatten_lastfm.py:60-66 | A successful run has exactly one row per track across the pages. |
| Flatten.GatherLineage | src/02_flatten_lastfm.py:52-66 | Each row has the nine keys in order, names a matching file of the listing, and carries the page number read from that file's name. |
| Flatten.GatherByFile | src/02_flatten_lastfm.py:52-66 | Over sorted files, a later row never names a file that sorts before an earlier row's file. |
| Flatten.FlattenAllShape | src/02_flatten_lastfm.py:50-75 | A successful run: the header is the nine column names; there is one row per track and at least one row; rows come in file-name order; every row is traceable to its file and page. |
| Flatten.FetchedPagesInOrder | src/02_flatten_lastfm.py:52-66 | When every page file has a fetcher-made name below page 100000, the rows' source_page values never decrease. |
| Flatten.FetchedPage | src/02_flatten_lastfm.py:53 | A row read from a fetcher-named file carries that file's page number. |
| Flatten.NoTracksNoRows | src/02_flatten_lastfm.py:70 | When the pages all parse, the stage fails on rows[0] exactly when there is no track at all. |
| Flatten.NoPagesNoRows | src/02_flatten_lastfm.py:52-70 | A listing without a matching name fails with "no rows". |
| Flatten.NoneMatching | src/02_flatten_lastfm.py:52 | glob over a listing without a matching name is empty. |
| Flatten.MalformedStops | src/02_flatten_lastfm.py:55-58 | A page that does not decode, or lacks recenttracks.track, stops the stage whatever follows it. |
| Flatten.RecordCell | src/02_flatten_lastfm.py:73-75 | Each field is written under its own column name, with its cell text. |
| Flatten.WrittenRow | src/02_flatten_lastfm.py:73-75 | A written row's keys are exactly the nine column names. Each cell is the text of track_to_row's value for that field: None becomes "", and the page becomes str(page). |
| Flatten.AppendPage | src/02_flatten_lastfm.py:60-66 | The loop over one page's tracks appends exactly that page's rows, in track order, to the rows so far. |
| Flatten.RecordKeys | src/02_flatten_lastfm.py:73-75 | A record with every field is keyed by exactly the nine column names. |
| Validate.IsBlank | src/03_validate_interim.py:22-23 | A value is blank exactly when it is absent or all whitespace. |
| Validate.Bump | src/03_validate_interim.py:65 | counter[k] += 1 keeps the counter well formed: keys distinct, each count ≥ 1. |
| Validate.Count | src/03_validate_interim.py:59-65 | The counter after counting a sequence of keys is well formed. |
| Validate.Values | src/03_validate_interim.py:67-68 | values() has one entry per distinct key. |
| Validate.BlankCount | src/03_validate_interim.py:48-50 | The blank count never exceeds the row count. |
| Validate.BadCount | src/03_validate_interim.py:52-57 | The bad-timestamp count never exceeds the row count. |
| Validate.DupKeys | src/03_validate_interim.py:60-64 | Row i's key is the stripped (played_at_utc, track_name, artist_name) of row i. |
| Validate.ExitCode | src/03_validate_interim.py:81-86 | The exit code is one of 2, 3, 4 and 0. |
| Validate.ValidateInterim | src/03_validate_interim.py:25-86 | The row-by-row loop yields exactly the outcome of Check and its exit code. |
| Validate.ValidateTable | src/03_validate_interim.py:38-86 | For an opened file: exit 3 with the found header when it is not the expected one; otherwise the report of all rows, and exit 4 or 0 as that report's bad count says. |
| Validate.Summarize | src/03_validate_interim.py:44-68 | The report holds the row loop's counters and the two duplicate sums, and equals the report of all rows. |
| Validate.ScanRows | src/03_validate_interim.py:30-65 | After the loop, the row count is the number of rows, each blank counter counts the rows whose cell is blank, the bad counter counts the non-integer timestamps, and the Counter tallies every row's key. |
| Validate.BlankNext | src/03_validate_interim.py:48-50 | A blank counter goes up by one for a row exactly when that row's cell is blank. |
| Validate.BadNext | src/03_validate_interim.py:52-57 | The bad counter goes up by one for a row exactly when int() rejects that row's stripped timestamp. |
| Validate.TallyNext | src/03_validate_interim.py:59-65 | Bumping a row's key extends the tally by that row. |
| Validate.SameKeyCount | src/03_validate_interim.py:65 | Counting n copies of one key gives one entry with that key mapped to n. |
| Validate.CountDuplicates | src/03_validate_interim.py:67-68 | The loop over values() computes both sums: the duplicate groups and the extra rows. |
| Validate.ExitCodes | src/03_validate_interim.py:26-86 | Exit 2 exactly without a file; 3 exactly on any other header; 4 exactly when some timestamp is bad; 0 exactly when none is. |
| Validate.OnlyTimestampsFail | src/03_validate_interim.py:81-86 | Blanks and duplicates never change the exit code. |
| Validate.BlankIsBad | src/03_validate_interim.py:48-57 | A blank played_at_utc is also a non-integer one. |
| Validate.BadTimestamp | src/03_validate_interim.py:52-57 | A row without played_at_utc is bad. A row whose raw text int() accepts is not bad. For raw text without U+001C..U+001F, a row is bad exactly when int() rejects the raw text. |
| Validate.PresentTimestamp | src/03_validate_interim.py:53-57 | With the column present: raw text int() accepts is not bad, and for raw text without U+001C..U+001F, bad exactly when int() rejects it. |
| Validate.MissingTimestamp | src/03_validate_interim.py:53-57 | A row without played_at_utc is bad. |
| Validate.NoBadTimestamps | src/03_validate_interim.py:52-57 | A bad count of zero means no row is bad. |
| Validate.NoBadAt | src/03_validate_interim.py:52-57 | With a bad count of zero, each single row is not bad. |
| Validate.BlanksBounded | src/03_validate_interim.py:44-57 | Each blank count is at most the row count, and blank played_at_utc is at most bad played_at_utc. |
| Validate.CountMultiplicity | src/03_validate_interim.py:59-65 | The counter holds exactly the keys seen, each with its number of occurrences. |
| Validate.CountTotal | src/03_validate_interim.py:65 | The counter's values add up to the number of rows. |
| Validate.CountOrder | src/03_validate_interim.py:65 | The counter lists each distinct key exactly once. |
| Validate.ValuesPositive | src/03_validate_interim.py:67-68 | Every count is at least 1. |
| Validate.ExtraRowsTotal | src/03_validate_interim.py:67-68 | With all counts ≥ 1, the extra rows are the total less the number of keys, and the groups are at most the extra rows. |
| Validate.DuplicateCounts | src/03_validate_interim.py:59-68 | dup_rows_over_1 == rows − distinct keys, and dup_groups ≤ dup_rows_over_1. |
| Validate.ThreeCopies | src/03_validate_interim.py:67-68 | Three rows with one key make one duplicate group and two extra rows. |
| Validate.PaddedCellClean | src/03_validate_interim.py:61-63 | Whitespace around a cell does not change its cleaned value. |
| Validate.PaddedRowsShareKey | src/03_validate_interim.py:60-64 | Rows that differ only in whitespace around the three key cells share a duplicate key. |
| Enrich.OutFields | src/04_make_processed.py:70 | out_fields is sixteen names: the nine interim fields, then the seven derived ones. |
| Enrich.Epoch | src/04_make_processed.py:83 | int(row["played_at_utc"]) succeeds exactly when the key is present and int() accepts its text, and then gives that integer. int() skips only its own whitespace and refuses more than 4300 digits. |
| Enrich.Carried | src/04_make_processed.py:86 | The nine carried cells are row.get(k, "") for each interim field, in order. |
| Enrich.Cells | src/04_make_processed.py:86-95 | The written row starts with the carried cells, followed by seven derived ones. |
| Enrich.StampOf | src/04_make_processed.py:84 | The derived fields exist exactly for epochs in 0001..9999. |
| Enrich.DeriveRow | src/04_make_processed.py:83-95 | A converted row has one cell per output column. |
| Enrich.Results | src/04_make_processed.py:80-95 | There is one result per input row. |
| Enrich.FirstFailure | src/04_make_processed.py:80-95 | Every row before the stopping index converts, and the row at it raises. |
| Enrich.FirstFailureIs | src/04_make_processed.py:80-95 | The first row that raises is the stopping index. |
| Enrich.Lines | src/04_make_processed.py:80-95 | One line per converted row. |
| Enrich.LinesSnoc | src/04_make_processed.py:95 | Writing one more converted row appends its line. |
| Enrich.MakeProcessed | src/04_make_processed.py:64-98 | The read-convert-write loop yields exactly Process's outcome. rows_in counts the rows read, the failing one included. |
| Enrich.DeriveRowSucceeds | src/04_make_processed.py:83-93 | A row converts exactly when it has an integer played_at_utc in range. It keeps the nine cells, with "" for a missing one, and gets the derived fields of that integer. A missing key raises NoTimestamp, the KeyError. |
| Enrich.DerivedNumbers | src/04_make_processed.py:87-93 | The epoch, year, month, weekday and hour cells read back through int() as the values they were written from, within their ranges. |
| Enrich.StampMeaning | src/04_make_processed.py:87-93 | played_at_epoch reads back as the epoch. The timestamp is the 20-character ISO form, with the date as its first 10 characters. Year, month, weekday and hour read back as the instant's values, within 1..9999, 1..12, 0..6 and 0..23. |
| Enrich.EpochCanonical | src/04_make_processed.py:83-87 | played_at_epoch is canonical text that int() reads as the same integer as the input cell, so with CanonicalIsStr all cells for one integer ("7", "007", "+7", " 7") get the same played_at_epoch. |
| Enrich.LeadingZerosDropped | src/04_make_processed.py:83-87 | An example of EpochCanonical: "007" is written back as "7". |
| Enrich.EpochZero | src/04_make_processed.py:84-93 | Epoch 0 gives "0", "1970-01-01T00:00:00Z", "1970-01-01", "1970", "1", "3" (Thursday) and "0". |
| Enrich.NextDayStamp | src/04_make_processed.py:92-93 | One day later the hour is the same and dow_utc is the next weekday, mod 7. |
| Enrich.DoneShape | src/04_make_processed.py:70-95 | A completed run writes the 16-column header and one line per input row, each the conversion of that row, in input order. |
| Enrich.CrashShape | src/04_make_processed.py:80-95 | A run that raises stops at the first row that does: every earlier row is written in order, and nothing after it. |
| Enrich.MissingInputExit | src/04_make_processed.py:64-66 | Without the interim file nothing is written and the exit code is 2, and only then. |
| Pipeline.InterimColumnsAgree | src/03_validate_interim.py:10-20 | The flattener's keys, the validator's EXPECTED_FIELDS and the enricher's INTERIM_FIELDS are the same nine names, in the same order. |
| Pipeline.FlattenedHeaderAccepted | src/03_validate_interim.py:38-42 | The interim CSV of a successful flatten passes the validator's header check. |
| Pipeline.PassedHasNoBadTimestamps | src/03_validate_interim.py:81-86 | Exit code 0 means no bad timestamp was counted. |
| Pipeline.IntegerEpochsConvert | src/04_make_processed.py:83-84 | When every row has a timestamp int() accepts as written, the only error a row can raise is OutOfRange. |
| Pipeline.ValidatedFileConverts | src/04_make_processed.py:80-95 | A file the validator passes with 0 converts completely, or stops at a timestamp outside the years 1..9999, or at a cell with a U+001C..U+001F separator that int() accepts only after strip(). Without separators in the cells, only the year range can stop it. |
| Pipeline.PassedRowsConvert | src/04_make_processed.py:80-95 | The same conclusion for any table whose rows the validator's timestamp check all passes. |
| Pipeline.PassedRowFails | src/04_make_processed.py:83-84 | A row the validator passes but the enricher rejects has a timestamp that is out of range, or one containing a separator that int() reads only after strip(). |
| Pipeline.SeparatorCellCrashes | src/03_validate_interim.py:53-57 | A one-row file whose cell is a separator followed by digits: the validator exits 0, and the enricher raises on row 0 with nothing written. |
| Pipeline.SeparatorRowPasses | src/03_validate_interim.py:53-57 | A row whose stripped timestamp int() accepts is not bad. |
| Pipeline.SeparatorRowRaises | src/04_make_processed.py:80-83 | In a one-row file whose cell int() rejects, the enricher raises on that row, with no line written. |

## Left out

- Fetch: `load_dotenv`, reading the environment and the two missing-credential errors (lines 17-24) are environment I/O. They are not modelled.
- Fetch: the request parameters, timeouts, response bodies, `resp.json()`, `json.dump` and the output directory are not modelled. A page file is identified by its page number, and totalPages is a parameter standing for `int(attr["totalPages"])`.
- Fetch: `time.sleep` is a `Wait` event carrying its seconds. No clock is modelled.
- Fetch: all printing is left out, including the progress line every 25 pages.
- Flatten: JSON decoding is left out. Tracks are typed values whose fields are strings or absent.
  - Non-string `uts` values and non-object `date`/`artist`/`album` values are not modelled.
  - JSONDecodeError, KeyError and TypeError on a page are one `BadPage` failure.
- Flatten: a glob match that is not a regular file is not modelled, and neither are filesystem errors.
- Flatten: the CSV serialisation itself is not modelled: writing then reading back with DictReader is taken to give each row's nine cells, with None written as "". Quoting, newlines inside cells, and DictReader's handling of surplus cells are not modelled.
- Validate: `blank_counts` is three counters, because only the three listed keys are ever incremented. The printed report is the `Report` value.
- Validate, Enrich: the existence check of the input file is an `Option` input. Reading and writing the files is not modelled.
- Text.ParseInt: accepts only ASCII digits with an optional sign. Python's `int()` also accepts underscores between digits ("1_000") and non-ASCII decimal digits, which the model rejects.
- Text.ParseInt: the 4300-digit limit is CPython's default. `PYTHONINTMAXSTRDIGITS` and `sys.set_int_max_str_digits` can change it, and Python versions before 3.11 have no limit. The model fixes it at 4300.
- Text.IntToString: `str()` and `format()` raise ValueError past 4300 digits, but the model's are total. Every integer these scripts format comes from `int()` of a cell, a page count or a date field, so it is within that limit.
- Civil.IsoTimestamp: pads the year to four digits. On some C libraries `strftime("%Y")` writes years below 1000 without padding, so `played_at_ts_utc` differs from the model for those years. `date_utc` pads in both.
- Civil.FromTimestamp: fails exactly outside datetime's year range 1..9999. Platform limits of the C time functions, such as negative timestamps on some systems, are not modelled.
- Enrich: the exit status 1 after an uncaught exception is Python's default. The model returns it as `Crashed` with the failing row and error. It takes the lines written before that row as flushed when the file closes.
