# github-commits-etl, modelled in Dafny

The system is a small ETL job. It fetches the commits of one GitHub repository
in a time window from the REST API, at most ten pages of 100 commits each.
It shapes each commit into a row for a `commits` table (email, date). It also
builds a row for an `authors` table (email, name, first and last commit date
in the batch). It loads both into Postgres. Finally it reads the commit dates
back and draws a heatmap of commit density over weekday and 3-hour time
interval.

The model covers the part of the job that decides what gets stored and what
the heatmap counts:

- `common.dfy` has `Option`, `Result`, and the Python exception kinds the
  job tells apart (`IndexError`, `KeyError`, `ValueError`, any other).
- `text.dfy` has Python's `str(n)` for naturals and Python's `<=` on `str`
  (lexicographic by code point). It proves that `<=` is a total order.
- `timestamps.dfy` has calendar timestamps and the `'%Y-%m-%dT%H:%M:%SZ'`
  layout, written by `strftime` (`Render`) and read by `strptime` (`Parse`).
  It proves both round trips. It also proves that comparing two rendered
  timestamps as strings is the same as comparing them in time. This is the
  property that section 5.1 of RFC 3339 promises for this layout.
- `time_bucket.dfy` has `format_time_interval`, its `while` loop kept as a
  loop. It is proved equal to a reference definition, `Labels[hour / 3]`.
- `record_shaper.dfy` has `extract_firstlast_dates` and `format_data`, on
  raw commits whose fields may be missing. A missing field raises
  `KeyError`.
- `ingestion.dfy` has `get_data`: the paged fetch loop and the shaping loop,
  with its de-duplication of author rows. It also has the window check of
  `main`. The remote API is a parameter: a function from a request to a page
  of commits or an exception.
- `density_grid.dfy` has `get_skeleton_df` and `get_insight_3_df`: the
  56-cell weekday × interval grid, the group-by count, the left join, and the
  zero fill. It proves that the grid holds every commit exactly once.

The `authors` table is keyed on the email alone (sql_queries.py:22). The
comment at main.py:55 presents the `not in` test as the job's duplicate
filter for that table. The code, however, de-duplicates whole author rows
(email, name, first, last). The model follows the code.
`Ingestion.SameEmailTwoNames` shows the consequence, and the Findings section
below records it.

## Model

| member | source | states |
|---|---|---|
| Text.DecimalString | helpers.py:43-44 | `str(n)`: non-empty, all decimal digits, reading back as `n` (`DigitsValue`), with no leading zero except for `0` itself, and a single digit exactly when `n < 10` |
| Text.LexLeReflexive | helpers.py:71 | Python's string `<=` is reflexive |
| Text.LexLeTotal | helpers.py:71 | any two strings are comparable, so `min`/`max` over dates are defined |
| Text.LexLeAntisymmetric | helpers.py:71 | two strings that are each `<=` the other are equal |
| Text.LexLeTransitive | helpers.py:71 | string `<=` is transitive |
| Timestamps.Render | helpers.py:134 | `strftime('%Y-%m-%dT%H:%M:%SZ')`; its layout, inverse and order are stated by `RenderLayout`, `ParseRender`, `RenderParse` and `RenderOrder` |
| Timestamps.Parse | helpers.py:34 | a string `strptime` accepts denotes a valid calendar timestamp (month, day in month with leap years, hour, minute, second in range) |
| Timestamps.RenderLayout | helpers.py:134 | `strftime` output is 20 characters: four-digit year, two-digit fields, with `-`, `-`, `T`, `:`, `:`, `Z` at their fixed places |
| Timestamps.ParseRender | helpers.py:134-135 | parsing what `strftime` wrote gives back the same timestamp |
| Timestamps.RenderParse | helpers.py:34 | rendering a parsed string gives back that string, so the accepted strings are exactly the rendered ones |
| Timestamps.RenderOrder | helpers.py:70-71 | for rendered timestamps, string `<=` holds exactly when the first is not later than the second |
| TimeBucket.Bucket | helpers.py:117 | the reference tag of an hour is one of the eight interval tags |
| TimeBucket.FormatTimeInterval | helpers.py:30-63 | the loop returns `ValueError` for a string `strptime` rejects, otherwise the tag `Labels[hour / 3]` of the parsed hour, after at most eight windows |
| TimeBucket.StartClockText | helpers.py:41-47 | the start of a window is written on the 12-hour clock: 0 as `12am`, 12 as `12pm`, 13 to 23 less 12 with `pm` |
| TimeBucket.SpanLabelsFormatted | helpers.py:40-49 | the first branch builds, for the windows starting at 0, 3, …, 18, exactly the first seven tags of the list |
| TimeBucket.WrapLabelFormatted | helpers.py:50-55 | the wrap-around branch builds `9pm-12am`, the last tag of the list |
| TimeBucket.SpanTag | helpers.py:40-49 | an hour inside a window before 21 gets the tag the reference gives it |
| TimeBucket.WrapTag | helpers.py:50-55 | every hour from 21 to 23 gets the last tag |
| TimeBucket.LabelsDistinct | helpers.py:117 | the eight tags are pairwise distinct |
| TimeBucket.BucketHalfOpen | helpers.py:39-61 | hour `h` gets tag `k` exactly when `3k <= h < 3k + 3`: the windows are half-open and partition the day |
| TimeBucket.OnlyHourMatters | helpers.py:34 | two timestamps with the same hour get the same tag, whatever their date, minute or second |
| TimeBucket.RenderedInterval | helpers.py:133-135 | a stored timestamp, written with `strftime`, is tagged by its own hour |
| RecordShaper.AuthorDates | helpers.py:70 | the list comprehension succeeds exactly when every email and each matching date is present (else `KeyError`); its dates are exactly the author's dates in the batch |
| RecordShaper.MinStr | helpers.py:71 | `min` over a non-empty list of strings; `MinStrIsLeast` states what it returns |
| RecordShaper.MaxStr | helpers.py:71 | `max` over a non-empty list of strings; `MaxStrIsGreatest` states what it returns |
| RecordShaper.MinStrIsLeast | helpers.py:71 | `min` returns a member that is `<=` every member |
| RecordShaper.MaxStrIsGreatest | helpers.py:71 | `max` returns a member that is `>=` every member |
| RecordShaper.ExtractFirstLastDates | helpers.py:66-73 | succeeds exactly when the scan succeeds and the author has a commit; fails with `KeyError` or, for no commit, `ValueError`; the row carries the given email and name, and first and last are dates of the author that bound all of the author's dates |
| RecordShaper.FormatData | helpers.py:17-27 | `IndexError` past the end, `KeyError` for a missing field, otherwise the commit row of item `i` and an author row for its email and name whose first and last bound the item's own date |
| RecordShaper.FormatDataSpansAuthor | helpers.py:21-27 | the author row is what `extract_firstlast_dates` gives for the item's email and name, and it bounds every date of that email in the batch |
| RecordShaper.FormatDataTotal | helpers.py:21-25 | on a batch of complete records `format_data` never raises |
| RecordShaper.SameAuthorSameRow | helpers.py:25 | two commits with the same email and name get the same author row |
| RecordShaper.SingleCommitAuthor | helpers.py:70-71 | an author with one commit has first = last = that commit's date |
| RecordShaper.FirstLastChronological | helpers.py:70-71 | when the dates are `strftime` output, first and last parse, and they are the earliest and latest commit of the author in time |
| Ingestion.CommitRows | main.py:51-53 | one commit row per item, in order, holding the item's email and date |
| Ingestion.FetchPages | main.py:31-48 | the fetch loop collects exactly the pages the reference fetch collects (or its first exception) and sends exactly the reference sequence of requests |
| Ingestion.ShapeBatch | main.py:51-56 | the shaping loop fails exactly when some item misses a field, and then with `KeyError`; otherwise it returns the commit rows and the de-duplicated author rows |
| Ingestion.GetData | main.py:18-62 | `get_data` returns `([], [])` on `IndexError`, re-raises any other exception, and otherwise returns the shaped rows of everything fetched; its requests are the reference ones |
| Ingestion.Run | main.py:74-80 | a window whose start is later than its end raises `ValueError` before any request; otherwise the run is `get_data` |
| Ingestion.RequestsArePages | main.py:35-42 | the requests are for pages `1, 2, …` in order, each with `per_page` 100, at most ten, and at least one |
| Ingestion.StopsAtFirstEmpty | main.py:43-48 | with pages before `stop` non-empty and page `stop` empty, the result is the concatenation of those pages and no later page is requested |
| Ingestion.CollectBound | main.py:34-45 | if each answer holds at most `per_page` commits, at most 1000 commits are collected |
| Ingestion.EmptyFirstPage | main.py:43-62 | an empty first page ends the run with two empty lists after one request |
| Ingestion.Dedup | main.py:54-56 | the list built by appending each row unless an equal row is already in it; `DedupElements`, `DedupNoDuplicates` and `DedupPrefix` state what it holds and in which order |
| Ingestion.DedupElements | main.py:54-56 | the author list holds exactly the rows offered to it |
| Ingestion.DedupNoDuplicates | main.py:54-56 | the author list holds no row twice |
| Ingestion.DedupPrefix | main.py:54-56 | the list built from the first `n` rows is a prefix of the final list: first-seen order is kept |
| Ingestion.AuthorsDeduplicated | main.py:51-56 | the author list of a batch has no repeated row, holds the author row of every commit and nothing else, and keeps first-seen order |
| Ingestion.SameEmailTwoNames | main.py:54-56 | one email committed under two names gives two author rows with that email |
| Ingestion.DedupByEmailElements | sql_queries.py:15-25 | keeping the first row per email keeps only input rows and loses no email |
| Ingestion.DedupByEmailKeyed | sql_queries.py:15-25 | the rows kept have pairwise distinct emails |
| Ingestion.DedupByEmailAgrees | main.py:54-56 | where each email always comes with the same row, keeping one row per email is the whole-row de-duplication |
| Ingestion.AuthorsByEmailKeyed | sql_queries.py:15-25 | the per-email author list fits the `authors` key: distinct emails, each an author row of the batch, every email of the batch present |
| Ingestion.AuthorsByEmailAgrees | main.py:54-56 | if every email in the batch has one name, the per-email list equals the list `get_data` builds |
| DensityGrid.Product | helpers.py:119 | `list(product(xs, ys))`, of length `len(xs) * len(ys)`; `ProductAt` and `ProductMembers` state its order and contents |
| DensityGrid.Skeleton | helpers.py:112-121 | `get_skeleton_df`: the product of the weekdays and the tags; `SkeletonLayout`, `SkeletonCells` and `SkeletonDistinct` state its rows |
| DensityGrid.ProductAt | helpers.py:119 | `product(xs, ys)` holds `(xs[i], ys[j])` at position `i * len(ys) + j` |
| DensityGrid.ProductMembers | helpers.py:119 | a pair is in `product(xs, ys)` exactly when its parts are in `xs` and `ys` |
| DensityGrid.SkeletonLayout | helpers.py:116-121 | the skeleton has 56 rows, day-major, row `k` being `(Days[k / 8], Labels[k % 8])` |
| DensityGrid.SkeletonCells | helpers.py:116-121 | the skeleton holds exactly the (weekday, tag) pairs |
| DensityGrid.SkeletonDistinct | helpers.py:116-121 | no (weekday, tag) pair occurs twice in the skeleton |
| DensityGrid.CellOf | helpers.py:133-135 | a commit's cell is its weekday name and the tag of its hour |
| DensityGrid.GroupCounts | helpers.py:137 | the group-by has an entry exactly for the cells holding a commit, with that cell's number of commits |
| DensityGrid.CountSingle | helpers.py:137 | one commit counts once, in its own cell |
| DensityGrid.LeftJoin | helpers.py:140 | `pd.merge(..., how='left')` of the skeleton with the grouped counts; `JoinedCounts` states its rows |
| DensityGrid.FillNa | helpers.py:143-147 | `fillna({'total_commits': 0})` and the cast to `int`; `JoinedCounts` states its rows |
| DensityGrid.Insight3 | helpers.py:124-157 | `get_insight_3_df`; `Insight3Cells`, `Insight3Order` and `Insight3Total` state its rows, their order and their sum |
| DensityGrid.JoinedCounts | helpers.py:139-147 | the left join and zero fill give one row per skeleton cell, in skeleton order, with that cell's count (0 where the group-by has none) |
| DensityGrid.Insight3Cells | helpers.py:137-147 | the table has 56 rows; row `k` is day `k / 8`, interval `k % 8`, with the number of commits in that cell |
| DensityGrid.Rank | helpers.py:150-155 | the rank of a category is a position at which it occurs |
| DensityGrid.Insight3Order | helpers.py:149-155 | the rows are strictly ordered by day category, then by interval category |
| DensityGrid.Insight3Total | helpers.py:137-147 | the counts of the table add up to the number of commits: each commit is counted once, none lost |
| DensityGrid.OneWednesdayCommit | helpers.py:124-157 | one commit on Wednesday at 14:10 gives 1 in the (Wednesday, 12pm-3pm) row and 0 in the other 55 |

## Left out

- The HTTP transport and JSON decoding are not modelled. The API is a parameter that answers each request with a list of commits or an exception. An answer that decodes to a non-empty JSON object, such as a rate-limit message, is not modelled.
- The API returns commits newest first. Nothing in the model depends on that order, so it is not stated.
- Postgres is not modelled: connecting, `drop_tables`, `create_tables`, `insert_to_table`, `generate_insight`, and the SQL in `sql_queries.py`. The only part used is the key of the `authors` table, for the Findings row.
- The reporting in `main` is not modelled: the `print` calls, insights 1 and 2, and their `[0]`, `[1]`, `[2]` indexing.
- The `print` calls inside `get_data` (main.py:49, 58, 60) are not modelled. They write to the console and change no result.
- The pivot in `main`, `generate_heatmap`, and plotting are not modelled.
- Command-line parsing with `click`, today's date as the default window, and `configparser` are not modelled.
- pandas' `day_name` is not modelled: each stored commit carries its weekday index as an input.
- Time zones and microseconds are not modelled; timestamps are naive whole seconds.
- The nested `commit` → `author` keys of a raw commit are collapsed into three optional fields (email, name, date). A missing key at any level is one missing field.
- Timestamps.Parse: accepts exactly the 20-character form `strftime` writes. `strptime` accepts more, and the model does not: fields without zero padding, space-padded fields such as a day written `" 1"`, lowercase `t` and `z` (its pattern ignores case), and non-ASCII decimal digits. The only caller passes `strftime` output.
- Timestamps.Render: pads years below 1000 to four digits, which the C library's `%Y` may not do. Years of commits are four-digit.
- DensityGrid.Insight3: on an empty list of commits it returns the 56 rows with count 0. The code would raise `AttributeError` instead: the empty frame built at main.py:104 has an object-typed `date` column, and `.dt.day_name()` at helpers.py:133 rejects it. `main` never gets there with no commits, because the insight indexing at main.py:95 raises `IndexError` first.
- Ingestion.CollectBound: assumes the API honours `per_page`. The code itself does not check page size.
- Ingestion.GetData: splits `get_data` into two methods, `FetchPages` and `ShapeBatch`. The exceptions the code handles in one `try` are threaded between them as results.
- Ingestion.FetchPages: the requests sent are a ghost out-parameter. They record behaviour and are not returned by the code.

## Findings

| source | as written | input that shows it | evidently intended | confidence | as-written member | corrected member |
|---|---|---|---|---|---|---|
| main.py:54-56 | author rows are de-duplicated as whole tuples (email, name, first, last), but the `authors` table (sql_queries.py:15-25) is keyed on `email` alone | two commits in the batch with the same email and different author names, e.g. after a name change in git config | one author row per email, so that the insert into `authors` cannot violate its key | not executed | Ingestion.SameEmailTwoNames | Ingestion.AuthorsByEmailKeyed |

`Ingestion.GetData` keeps the list as written, since that is what `get_data`
returns. `Ingestion.AuthorsByEmail` is the corrected list.
`Ingestion.AuthorsByEmailAgrees` proves that the two lists coincide whenever
no email in the batch comes with two names.
