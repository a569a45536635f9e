# Lecture and exam timetable endpoints, modelled in Dafny

This project models the two scraping endpoints of the NIBM student toolkit.

The lecture endpoint (`GET /api/lectures`) works in these steps:

1. It reads `date`, `limit`, `batch` and `branch` from the query string.
2. It answers from a five-minute in-memory cache keyed on the whole query.
3. Otherwise it plans one timetable page per (day, branch) pair. The days come from `getOffsettedDate`.
4. It fetches the pages three at a time, pausing 100 ms between slices.
5. Each page fetch is tried at most three times (two retries), with exponential backoff between attempts.
6. It turns every table row into a lecture record, or drops the row.
7. It filters the records by batch, stores the answer in the cache and returns it.

The exam endpoint (`GET /api/exams`) turns each exam table row into an exam record. It deletes branch suffixes from batch names and title-cases the names. The answer is filtered by exam name, ignoring case, and cut to a limit.

Modules, one per concern of the two handlers:

- `Wrappers`: `Option` and `Result`.
- `Seqs`: map, filter, flat-map, de-duplication and `slice` on sequences.
- `Text`: `trim`, case mapping, `split`/`join`, `replaceAll` of literal patterns, `replace` of the first match.
- `Numbers`: `parseInt` and `String` on integers.
- `Calendar`: the proleptic Gregorian calendar of the JavaScript `Date`, and `getOffsettedDate`.
- `LectureText`: `removeDuplicates`, `trimDate` and `cleanLocation`.
- `Extraction`: the row mapping inside `fetchData`.
- `Retry`: `fetchDataWithRetry`.
- `Plan`: the branch table and the request plan.
- `Scheduler`: the sliced fetch loop.
- `QueryCache`: the cache, its key and its sweep.
- `LectureApi`: the lecture `GET` handler.
- `TitleCase`: `toTitleCase`.
- `Exams`: `parseExams` and the exam `GET` handler.

The HTML is abstracted. A lecture row is a sequence of `Cell`s. Each cell holds the texts that the handler's selectors read: the `div > big > b` texts, the `big` texts, the whole text and the text of the last child node. An exam row holds its cell count, the first cell's inner HTML, the `b` and `small` texts, and the link's `href`.

The network is a function: `pages(t)(k)` is what attempt `k` of fetching target `t` returned, or `None` if the request threw. Clock readings are parameters. Waits are returned as lists of milliseconds rather than slept.

## Model

| member | source | states |
|---|---|---|
| Numbers.NatToString | src/routes/api/lectures/+server.ts:35 | `String(n)` of a natural number is a non-empty digit string with no leading zero whose value is `n` |
| Numbers.ParseIntNaN | src/routes/api/lectures/+server.ts:191 | `parseInt` is NaN on blank text and on text whose first non-blank character is neither a sign nor a decimal digit; only a leading `-` gives a negative number |
| Numbers.ParseIntDigits | src/routes/api/lectures/+server.ts:191 | text starting (after whitespace) with a decimal digit, other than a `0x` prefix, reads as its longest leading run of decimal digits, ignoring what follows |
| Numbers.ParseDecimal | src/routes/api/lectures/+server.ts:191 | `parseInt` of a non-empty string of decimal digits is the value of those digits |
| Numbers.ParseIntOfString | src/routes/api/lectures/+server.ts:30-35 | `parseInt(String(n)) == n` for every integer below 10^21 in magnitude, negative ones included, so the day limit written into the cache key reads back as the same number |
| Numbers.DigitsValuePad | src/routes/api/lectures/+server.ts:194 | a digit group is the zero-padded rendering of its own value at its own width, as `toISOString` renders year, month and day |
| Calendar.NextPrev | src/routes/api/lectures/+server.ts:193 | the calendar successor and predecessor undo each other on every valid date |
| Calendar.FromDayNumberOfDate | src/routes/api/lectures/+server.ts:192-194 | converting a valid date to its day count from 1970-01-01 and back gives the same date |
| Calendar.DayNumberOfFromDayNumber | src/routes/api/lectures/+server.ts:192-194 | converting any day count to a date and back gives the same count; with the previous row, day counts and valid dates are in bijection |
| Calendar.NextDayNumber | src/routes/api/lectures/+server.ts:193 | `setDate(getDate() + 1)` moves to the calendar successor, one day number later |
| Calendar.MakeDayOfValid | src/routes/api/lectures/+server.ts:192 | `Date.UTC(year, month - 1, day)` of a valid date's own fields is that date's day number |
| Calendar.DayNumberInRange | src/routes/api/lectures/+server.ts:192-194 | every date with a year in 0..9999 is inside the valid time-value range |
| Calendar.UtcDayOfValid | src/routes/api/lectures/+server.ts:192 | `Date.UTC` on an in-range valid date gives its day number, unless the two-digit-year rule applies |
| Calendar.SplitIsoDate | src/routes/api/lectures/+server.ts:191 | `split("-")` of a `YYYY-MM-DD` string yields exactly its three digit groups |
| Calendar.IsoDateOfDateOf | src/routes/api/lectures/+server.ts:194 | rendering the date that a canonical string names gives that string back |
| Calendar.StartDayOfDigits | src/routes/api/lectures/+server.ts:191-192 | a canonical date string is read as `Date.UTC(year, month - 1, day)` of its three parsed digit groups |
| Calendar.StartDayOfIsoDate | src/routes/api/lectures/+server.ts:191-192 | a canonical date string starts on its own day number |
| Calendar.OffsetFrom | src/routes/api/lectures/+server.ts:192-194 | the offset date exists iff the start is a valid time value and start + offset stays in range; it is then the valid date exactly `offset` day numbers after the start |
| Calendar.OffsettedDateAsWritten | src/routes/api/lectures/+server.ts:190-195 | `getOffsettedDate` as written (years 0 to 99 read as 1900 to 1999): it succeeds iff the start parses to a valid time value and start + offset stays in range, and then renders the date `offset` days after the start |
| Calendar.OffsettedDate | src/routes/api/lectures/+server.ts:190-195 | the same with the year read literally |
| Calendar.OffsetZeroWith | src/routes/api/lectures/+server.ts:190-195 | under either year reading, offset 0 returns a canonical start date unchanged, provided its year is 100 or later when years 0 to 99 are shifted |
| Calendar.OffsetZero | src/routes/api/lectures/+server.ts:190-195 | with the year read literally, offset 0 returns any canonical `YYYY-MM-DD` start date unchanged |
| Calendar.YearReadingsAgree | src/routes/api/lectures/+server.ts:192 | the function as written and the literal-year reading agree on every offset of a canonical start date whose year is 100 or later |
| Calendar.OffsetStep | src/routes/api/lectures/+server.ts:192-194 | under either year reading, the date at offset `k + 1` is the calendar successor of the date at offset `k`, across month ends, year ends and leap days |
| Calendar.OffsetTo | src/routes/api/lectures/+server.ts:190-195 | under either year reading (year 100 or later when shifted), offsetting a canonical date by `n` gives exactly the canonical date whose day number is `n` larger |
| Calendar.OffsetReaches | src/routes/api/lectures/+server.ts:190-195 | whatever the start string, an offset that lands on an in-range valid date renders that date |
| Calendar.OffsetInvalidStart | src/routes/api/lectures/+server.ts:191-194 | under either year reading, a start that parses to an invalid date fails with `InvalidTimeValue` for every offset, as `toISOString` throws `RangeError` |
| Calendar.LeapDayExample | src/routes/api/lectures/+server.ts:190-195 | as written, 2024-02-28 offset by 1 is 2024-02-29, and offset by 2 is 2024-03-01 |
| Calendar.TwoDigitYearShift | src/routes/api/lectures/+server.ts:192 | as written, `0024-02-28` at offset 0 comes back as `1924-02-28`; the literal-year reading returns `0024-02-28` |
| Calendar.LegacyYearStart | src/routes/api/lectures/+server.ts:191-192 | as written, a canonical date in the years 0 to 99 starts on the day number of the same date nineteen hundred years later |
| Text.TrimInfix | src/routes/api/lectures/+server.ts:128 | `trim()` returns a contiguous infix of its input with only whitespace cut on either side |
| Text.TrimIdempotent | src/routes/api/lectures/+server.ts:128 | trimming twice is trimming once |
| Text.TrimTrimmed | src/routes/api/lectures/+server.ts:128 | a string without surrounding whitespace is left unchanged by `trim()` |
| Text.Capitalize | src/routes/api/lectures/+server.ts:188 | `capitalizeFirstLetter` keeps the length, upper-cases the first character and keeps the rest unchanged |
| Text.CapitalizeIdempotent | src/routes/api/lectures/+server.ts:188 | capitalising twice is capitalising once |
| Text.JoinSplit | src/routes/api/lectures/+server.ts:172-174 | joining the pieces of `split(sep)` with `sep` gives the original string |
| Text.SplitJoinChar | src/routes/api/lectures/+server.ts:172-174 | splitting a join of space-free words on the space gives back the same words |
| Text.SplitChar | src/routes/api/lectures/+server.ts:172 | `split(" ")` yields one more piece than there are spaces, and no piece contains a space |
| Text.SplitHead | src/routes/api/lectures/+server.ts:155-156 | the first piece of `split(sep)` is the text before the first separator (all of it when there is none), and the other pieces are those of the text after it |
| Text.SplitHasSecondPiece | src/routes/api/lectures/+server.ts:155-156 | `split(sep)` has a second piece iff the separator occurs, which decides whether `time.split("-")[1]` throws |
| Text.StripAllSubsequence | src/routes/api/lectures/+server.ts:128 | `replaceAll` of literal patterns leaves a subsequence of its input, and leaves a string with no match unchanged |
| Text.StripAllDeletesMatch | src/routes/api/lectures/+server.ts:177 | a global `replace` deletes a match at position `n`, when nothing matches before it, keeps the text before it, and carries on after it |
| Text.StripAllNoMatch | src/routes/api/lectures/+server.ts:177 | a global `replace` leaves text in which no alternative matches at any position unchanged |
| Text.StripAllDedup | src/routes/api/exams/+server.ts:23-28 | removing duplicate patterns from an alternation does not change what `replace` deletes |
| Text.RemoveFirstSplice | src/routes/api/lectures/+server.ts:136 | `replace(hallJoined, "")` cuts out exactly the first occurrence of the hall text |
| Seqs.Filter | src/routes/api/lectures/+server.ts:74 | a filter keeps exactly the matching elements, with their multiplicities, in their original order |
| Seqs.FilterAppend | src/routes/api/lectures/+server.ts:168 | filtering distributes over concatenation |
| Seqs.Dedup | src/routes/api/lectures/+server.ts:173 | `[...new Set(words)]` has no repeats, holds exactly the input's values, and orders them by first occurrence |
| Seqs.DedupIdempotent | src/routes/api/lectures/+server.ts:173 | de-duplicating a de-duplicated sequence changes nothing |
| Seqs.FlatMapAppend | src/routes/api/lectures/+server.ts:67 | flattening per-target results distributes over concatenating the targets |
| LectureText.RemoveDuplicates | src/routes/api/lectures/+server.ts:171-175 | the result repeats no word and has exactly the words of its input |
| LectureText.RemoveDuplicatesWords | src/routes/api/lectures/+server.ts:171-175 | the words of `removeDuplicates(s)` are the distinct words of `s`, without repeats, in order of first occurrence |
| LectureText.RemoveDuplicatesIdempotent | src/routes/api/lectures/+server.ts:171-175 | removing duplicates a second time changes nothing |
| LectureText.TrimDate | src/routes/api/lectures/+server.ts:177 | `trimDate` returns trimmed text, and a time text containing no `am`/`pm` in any case is only trimmed; `LectureText.TrimDateDeletesMeridiem` gives its value when one is present |
| LectureText.TrimDateDeletesMeridiem | src/routes/api/lectures/+server.ts:177 | an `am`/`pm` in any letter case, between two texts free of them, is deleted and the two texts are joined and trimmed |
| LectureText.TrimDateSpellings | src/routes/api/lectures/+server.ts:177 | the case-insensitive regex `/(am|pm)/gi` deletes the same text as the eight case spellings matched exactly |
| LectureText.SpellingMember | src/routes/api/lectures/+server.ts:177 | the eight spellings are exactly the two-letter strings that lower-case to `am` or `pm` |
| LectureText.KeptWords | src/routes/api/lectures/+server.ts:180-183 | the kept words are words of the input, none of them blacklisted, in input order |
| LectureText.CleanLocation | src/routes/api/lectures/+server.ts:179-186 | the result is trimmed, and is empty when every word is blacklisted |
| LectureText.CleanLocationWords | src/routes/api/lectures/+server.ts:179-186 | before the final trim, every blacklisted word is removed and every other word stays with its multiplicity and order; a text of blacklisted words only becomes empty |
| LectureText.CleanLocationClean | src/routes/api/lectures/+server.ts:179-186 | a trimmed location with no blacklisted word is returned unchanged |
| Extraction.NonBlank | src/routes/api/lectures/+server.ts:129 | `.filter((x) => x !== "")` keeps exactly the non-empty strings, each as often as in the input, in input order |
| Extraction.Batches | src/routes/api/lectures/+server.ts:125-129 | the batch codes are non-empty and trimmed; they are the non-blank codes of the bold texts, each as often as it occurs there, in cell order |
| Extraction.Floor | src/routes/api/lectures/+server.ts:135-152 | the floor repeats no word and has exactly the words of the cleaned location that is left once the hall names are cut out |
| Extraction.BatchCodeClean | src/routes/api/lectures/+server.ts:128 | a batch code that is already trimmed and free of `/CO` is unchanged |
| Extraction.BatchesClean | src/routes/api/lectures/+server.ts:125-129 | a batch cell of clean, non-empty codes yields exactly those codes |
| Extraction.BatchesSkipBlank | src/routes/api/lectures/+server.ts:128-129 | a bold text that is blank, or only `/CO`, contributes no batch code |
| Extraction.TimeOf | src/routes/api/lectures/+server.ts:155-156 | the start is the text before the first `-` and the end the text between the first and any second `-`, each trimmed and stripped of `am`/`pm` |
| Extraction.Record | src/routes/api/lectures/+server.ts:145-162 | the record carries the page's offset and trimmed branch; its title is the last node's trimmed text; its batch list is `Extraction.Batches` of the first cell, its hall the capitalised joined hall names and its floor `Extraction.Floor` of the second cell, and its time `Extraction.TimeOf` of the trimmed time text; exactly `EXAM` becomes lecturer `None`, any other text is kept; `is_exam` is a case-insensitive test for `exam` |
| Extraction.ExtractRow | src/routes/api/lectures/+server.ts:121-166 | a row yields a record iff it has three cells, two `big` texts in the third and a `-` in its time text; otherwise `null`. `Extraction.ExtractRowsSelect` ties it to the page's records |
| Extraction.ExtractRows | src/routes/api/lectures/+server.ts:120-168 | a page yields at most one record per row, each tagged with the page's offset and branch |
| Extraction.ExtractRowsSelect | src/routes/api/lectures/+server.ts:120-168 | the records are exactly those of the well-formed rows, one each, in row order |
| Extraction.ExtractRowsAppend | src/routes/api/lectures/+server.ts:120-168 | extraction is row by row: a page split in two gives the two results concatenated |
| Extraction.MixedCaseExam | src/routes/api/lectures/+server.ts:148-159 | a lecturer cell reading `Exam` gives an exam whose lecturer stays `Exam` |
| Retry.RetryFrom | src/routes/api/lectures/+server.ts:95-107 | if every attempt fails, the result is `[]` after all attempts; otherwise it is the first success's value after one attempt per try; the waits are `2^i * 1000` ms in order, one fewer than the attempts |
| Retry.FetchWithRetry | src/routes/api/lectures/+server.ts:89-108 | the loop as written makes the same attempts and waits as the recursive definition, and never more attempts than `retries` |
| Retry.RetryValue | src/routes/api/lectures/+server.ts:95-107 | the result is empty or exactly the value one successful attempt returned |
| Retry.RetryFirstSuccess | src/routes/api/lectures/+server.ts:95-104 | the first success at attempt `k` ends the run with its value after `k + 1` attempts and waits `1000, 2000, ...` |
| Retry.SecondRetrySucceeds | src/routes/api/lectures/+server.ts:103-104 | two failures then a success: three attempts and waits of 1000 and 2000 ms |
| Retry.ZeroRetries | src/routes/api/lectures/+server.ts:95-107 | with `retries = 0` no attempt is made and the result is empty |
| Retry.AllAttemptsFail | src/routes/api/lectures/+server.ts:99-101 | three failures give the empty list after three attempts, not an error |
| Plan.BranchNamesUnique | src/routes/api/lectures/+server.ts:9-15 | no two supported branches share a display name |
| Plan.SelectBranches | src/routes/api/lectures/+server.ts:53-55 | an absent or empty branch filter keeps the whole table; any other filter keeps exactly the branches with that name, in table order |
| Plan.SelectKnownBranch | src/routes/api/lectures/+server.ts:53-55 | the name of a supported branch selects that branch alone |
| Plan.SelectUnknownBranch | src/routes/api/lectures/+server.ts:53-55 | a name that no branch has selects nothing |
| Plan.DayTargets | src/routes/api/lectures/+server.ts:56-58 | one target per selected branch, in order, with URL `?wing=<keyword>&date=<date>`, the branch's name and the day's offset |
| Plan.DayCount | src/routes/api/lectures/+server.ts:51 | `for (i = 0; i < day_limit; i++)` runs `day_limit` times when it is positive, and never for NaN or a non-positive limit. `Plan.PlanLength` and `Plan.NoDaysNoPlan` tie it to the plan |
| Plan.PlanFrom | src/routes/api/lectures/+server.ts:50-59 | the plan exists iff every planned day has a date, and then holds days × branches targets |
| Plan.PlanTargets | src/routes/api/lectures/+server.ts:50-59 | every target pairs a planned day's computed date with one of the selected branches |
| Plan.PlanComplete | src/routes/api/lectures/+server.ts:51-58 | every (planned day, selected branch) pair is in the plan |
| Plan.PlanAt | src/routes/api/lectures/+server.ts:51-58 | the target at position `(i - k) * |branches| + j` fetches day `i` for the `j`-th branch at day `i`'s date |
| Plan.PlanDayMajor | src/routes/api/lectures/+server.ts:51-58 | targets are ordered day by day, so offsets never decrease along the plan |
| Plan.RequestPlan | src/routes/api/lectures/+server.ts:50-59 | under either year reading, the handler's plan exists iff each of the first `day_limit` offsets has a date, and then holds days × selected branches targets |
| Plan.RequestPlanShape | src/routes/api/lectures/+server.ts:50-59 | under either year reading, the handler's plan exists iff each of the first `day_limit` offsets has a date, and is then complete, tagged and day-ordered |
| Plan.RequestPlanAt | src/routes/api/lectures/+server.ts:51-58 | day `i`'s target for the `j`-th selected branch sits at position `i * |branches| + j` and fetches that branch's page at `getOffsettedDate(date, i)` |
| Plan.PlanLength | src/routes/api/lectures/+server.ts:50-59 | the plan has five targets a day without a branch filter, one a day for a supported branch's name, and none for any other name |
| Plan.NoDaysNoPlan | src/routes/api/lectures/+server.ts:51 | a NaN, zero or negative limit plans nothing, even for a malformed date |
| Plan.EmptyLimitIsNaN | src/routes/api/lectures/+server.ts:30 | `limit=` (empty) is NaN, because `??` keeps the empty string |
| Plan.DefaultLimitIsThree | src/routes/api/lectures/+server.ts:30 | an absent limit is 3 |
| Plan.MalformedDateFails | src/routes/api/lectures/+server.ts:51-52 | under either year reading, an unparsable start date makes planning throw as soon as one day is planned |
| Plan.FirstDayIsRequestedDate | src/routes/api/lectures/+server.ts:52-57 | the first day's targets fetch the requested canonical date itself, under the literal-year reading and, as written, for every year from 100 on |
| Plan.FirstDayTwoDigitYear | src/routes/api/lectures/+server.ts:52-57 | as written, `date=0024-02-28` plans first-day targets that fetch `1924-02-28` |
| Scheduler.Slices | src/routes/api/lectures/+server.ts:62-63 | the slices concatenate to the plan; there are `ceil(n / 3)` of them, each of size 1 to 3, and all but the last are full |
| Scheduler.SlicedFlatMap | src/routes/api/lectures/+server.ts:61-67 | fetching slice by slice and flattening gives the targets' results in plan order |
| Scheduler.RunPlan | src/routes/api/lectures/+server.ts:61-71 | the loop's results are the per-target results flattened in plan order, and it pauses once between each pair of consecutive slices |
| QueryCache.Lookup | src/routes/api/lectures/+server.ts:37-38 | a hit happens iff the key is present and its entry is younger than five minutes, and the hit is the stored data; `QueryCache.StoreThenLookup` relates it to `Store` |
| QueryCache.Store | src/routes/api/lectures/+server.ts:77 | the stored key holds the new entry, and every other key is unchanged |
| QueryCache.Sweep | src/routes/api/lectures/+server.ts:20-24 | the sweep removes exactly the entries older than ten minutes and keeps the rest unchanged |
| QueryCache.StoreThenLookup | src/routes/api/lectures/+server.ts:37-38 | a stored response is served back until it is five minutes old, and not after |
| QueryCache.StoreOtherKey | src/routes/api/lectures/+server.ts:77 | storing under one key changes no lookup under another |
| QueryCache.SweepKeepsHits | src/routes/api/lectures/+server.ts:20-24 | sweeping never removes an entry that a later lookup would serve |
| QueryCache.SweepIdempotent | src/routes/api/lectures/+server.ts:22-23 | sweeping twice at the same time removes nothing more |
| QueryCache.StaleButKept | src/routes/api/lectures/+server.ts:20-24 | between five and ten minutes old, an entry is no longer served but still kept |
| QueryCache.OrAll | src/routes/api/lectures/+server.ts:35 | `x || "all"` is never empty and is `x` when `x` is a non-empty string |
| QueryCache.CacheKey | src/routes/api/lectures/+server.ts:35 | the key starts with the date and a `-`, and ends with `-` and the branch filter or `all` |
| QueryCache.CacheKeyPrefix | src/routes/api/lectures/+server.ts:35 | the key begins with the date, then the day limit as `String` renders it |
| QueryCache.AllCollides | src/routes/api/lectures/+server.ts:35 | an absent batch or branch filter and the literal filter `all` share a cache key |
| QueryCache.EmptyFilterKey | src/routes/api/lectures/+server.ts:35 | an empty filter shares the absent filter's key |
| LectureApi.BatchFilter | src/routes/api/lectures/+server.ts:73-75 | without a batch all lectures are kept; with one, exactly the lectures whose batch list contains it, each as often as before, in order |
| LectureApi.Handle | src/routes/api/lectures/+server.ts:27-87 | the answer is 400 iff the date is missing or empty; only a fresh answer changes the cache, and it stores itself under the query's key with the store time |
| LectureApi.HitIffFresh | src/routes/api/lectures/+server.ts:37-48 | with a date, the answer is a hit iff the key's entry is younger than five minutes; a hit returns the cached data and leaves the cache alone |
| LectureApi.RepeatWithinDurationHits | src/routes/api/lectures/+server.ts:37-48 | after a miss, the same query within five minutes is a hit with the same lectures, whatever the network does meanwhile |
| LectureApi.MissStores | src/routes/api/lectures/+server.ts:77 | a miss stores its answer under the query's key, stamped with the store time, and changes no other key |
| LectureApi.CrashIffDateFails | src/routes/api/lectures/+server.ts:50-59 | under either year reading, on a miss the handler throws iff some planned day has no date |
| LectureApi.FetchTargetTags | src/routes/api/lectures/+server.ts:145-162 | every lecture fetched for a target carries that target's offset and trimmed branch |
| LectureApi.MissLectures | src/routes/api/lectures/+server.ts:50-77 | every lecture of a fresh answer has a planned day offset and a selected branch, and contains the requested batch |
| LectureApi.AllBatchReadsUnfiltered | src/routes/api/lectures/+server.ts:35-38 | `batch=all` within five minutes of an unfiltered miss is answered with the unfiltered lectures |
| LectureApi.Get | src/routes/api/lectures/+server.ts:27-87 | the handler with its sliced fetch loop answers and caches as `LectureApi.Handle` under the same year reading; it pauses between slices only on a miss |
| TitleCase.ToTitleCase | src/routes/api/exams/+server.ts:77-83 | `toTitleCase` equals the character-by-character reference `TitleCase.TitleChars` |
| TitleCase.TitleChars | src/routes/api/exams/+server.ts:77-83 | the reference title case: word starts upper-cased, every other character lower-cased, length kept |
| TitleCase.TitleCaseChars | src/routes/api/exams/+server.ts:77-83 | the split-map-join expression `toLowerCase().split(" ").map(capitalize).join(" ")` equals the character-by-character reference |
| TitleCase.TitleCaseShape | src/routes/api/exams/+server.ts:77-83 | title-casing keeps the length and puts spaces exactly where they were |
| TitleCase.TitleCaseWordCount | src/routes/api/exams/+server.ts:77-83 | title-casing keeps the number of space-separated words |
| TitleCase.TitleCaseIdempotent | src/routes/api/exams/+server.ts:77-83 | title-casing a title-cased text changes nothing |
| TitleCase.TitleCaseShaped | src/routes/api/exams/+server.ts:77-83 | after title-casing, no upper-case ASCII letter follows a non-space |
| TitleCase.TitleHasNoMarker | src/routes/api/exams/+server.ts:45-51 | a title-cased text never contains `(Special)` |
| Exams.ExamBatch | src/routes/api/exams/+server.ts:42-43 | the exam batch name is trimmed; `Exams.ExamBatchDeletesKeyword` gives its value when a keyword is present |
| Exams.ExamBatchDeletesKeyword | src/routes/api/exams/+server.ts:23-43 | a branch keyword between two texts without `/` is deleted from the batch name, and the two texts are joined and trimmed |
| Exams.ExamBatchRawList | src/routes/api/exams/+server.ts:23-28 | stripping with the de-duplicated keywords equals stripping with the raw list, which repeats `/RJ` |
| Exams.ExamBatchClean | src/routes/api/exams/+server.ts:42-43 | a trimmed batch name with no branch suffix is unchanged |
| Exams.ExamTitle | src/routes/api/exams/+server.ts:45-51 | the title never contains `(Special)` |
| Exams.ParseRow | src/routes/api/exams/+server.ts:33-65 | a row yields an exam iff it has three cells and a non-empty first cell containing `<br>`; date and time are the trimmed pieces around the first `<br>`; the batch is `Exams.ExamBatch` of the `b` text and the title `Exams.ExamTitle` of the `small` text; `is_special` is whether the small text contains `(Special)`; the URL is the site prefix plus the `href` or `""` |
| Exams.ParseExams | src/routes/api/exams/+server.ts:33-66 | at most one exam per row, and no title shows the special marker |
| Exams.ParseExamsSelect | src/routes/api/exams/+server.ts:33-66 | the exams are exactly those of the accepted rows, one each, in row order |
| Exams.ExamName | src/routes/api/exams/+server.ts:9 | the exam name is the trimmed parameter, and empty when absent |
| Exams.NameFilter | src/routes/api/exams/+server.ts:12-14 | an empty name keeps every exam; a name keeps exactly the exams whose title equals it ignoring case, each as often as before, in order |
| Exams.NameFilterIgnoresCase | src/routes/api/exams/+server.ts:13 | two names that differ only in letter case select the same exams |
| Exams.DefaultExamLimitValue | src/routes/api/exams/+server.ts:8 | an absent or empty limit is 999 |
| Exams.ExamsResponse | src/routes/api/exams/+server.ts:8-16 | the answer is a prefix of the name-filtered exams, of the length `slice(0, limit)` gives |
| Exams.ResponseWithoutParameters | src/routes/api/exams/+server.ts:8-16 | without parameters the answer is the first 999 exams |
| Exams.UnparsableLimit | src/routes/api/exams/+server.ts:8-16 | a limit that is not a number answers nothing, because `slice(0, NaN)` is empty |
| Exams.NegativeLimit | src/routes/api/exams/+server.ts:16 | a negative limit `-k` drops `k` exams from the end |
| Exams.NestedMarker | src/routes/api/exams/+server.ts:49 | one `replaceAll` pass over `((Special)Special)` leaves a `(Special)` behind |

## Left out

- Fetching and parsing HTML (axios, cheerio, the CSS selectors) are left out. Rows are given as the texts the selectors would read.
- `REQUEST_TIMEOUT`, the request headers, the JSON encoding and the `x-cache`, `x-duration-ms` and `x-count` response headers are left out. They shape no returned data.
- Console logging is left out.
- `Promise.all` runs a slice's fetches concurrently. Its result order is the slice order, which is what the model computes; the interleaving itself is not modelled.
- `setTimeout` and `setInterval` are not modelled as timing. Waits are returned as millisecond lists, and the clock is a parameter (`now`, `doneAt`).
- `Date.now()` being read separately for the hit check and for the store is modelled as two parameters; the duration measurement is left out.
- The host time zone is assumed to be UTC, so `setDate`/`getDate` move by whole UTC days.
- Case mapping covers ASCII letters only; Unicode case rules are not modelled.
- `parseInt` is modelled on whitespace, an optional sign, an optional `0x`/`0X` prefix and a run of digits. The loss of precision of very long digit strings in floating point is not modelled.
- Numbers.NumberToString: `String` writes numbers of magnitude 10^21 or more in exponent form (`1e+21`), which `parseInt` reads back as `1`. The model writes every integer in plain digits, so `Numbers.ParseIntOfString` holds only for magnitudes below 10^21 in JavaScript. Limits that large are not modelled.
- Retry.FetchWithRetry: an attempt that throws is a `None` outcome. What the error was is left out, since the handler only logs it.
- The sort of exams by `new Date(date + " " time)` (src/routes/api/exams/+server.ts:68-72) is left out. It depends on the host's date-string parsing, which is implementation-defined for these formats. `Exams.ParseExams` is the list before that sort.
- Exams.ExamTitle: `is_special` and the title read the same `small` text; the model states that the title hides the marker, but not which words it contains after title-casing.
- The exam and lecture `Lecture`/`Exam` type declarations, the Svelte pages, the paper-search endpoint and the offline asset cache are not part of this model.

## Behaviour worth knowing

- Batch filter: `lecture.batch.includes(batch)` tests membership in the array of batch codes, so a code must equal the filter exactly; a part of a code does not match (`LectureApi.BatchFilter`).
- `EXAM` lecturer: only the exact text `EXAM` is renamed to `"None"`, while `is_exam` ignores case, so `Exam` is an exam whose lecturer stays `Exam` (`Extraction.MixedCaseExam`).
- Cache keys: the key embeds `batch || "all"` and `branch || "all"`. A filter literally named `all` therefore shares the unfiltered key (`QueryCache.AllCollides`, `LectureApi.AllBatchReadsUnfiltered`).
- Empty limit: `limit=` is NaN for lectures, which plan no day, because of `??`. For exams it is 999, because of `||` (`Plan.EmptyLimitIsNaN`, `Exams.DefaultExamLimitValue`).

## Findings

| source | as written | input that shows it | evidently intended | confidence | as-written member | corrected member |
|---|---|---|---|---|---|---|
| src/routes/api/lectures/+server.ts:192 | `Date.UTC(year, month - 1, day)` maps a year of 0..99 to 1900..1999 | `getOffsettedDate("0024-02-28", 0)` returns `"1924-02-28"` | offset 0 returns the start date; the year is taken literally | medium, not executed | Calendar.TwoDigitYearShift | Calendar.OffsetZero |

`Calendar.OffsettedDateAsWritten` is the function as written and `Calendar.OffsettedDate` reads the year literally; both are `Calendar.OffsettedDateWith` with the flag `legacyYears` set or cleared. The request plan and the handler take the flag as a parameter, and their lemmas hold for both readings; `legacyYears = true` is the code as written. The two readings agree on every canonical start date whose year is 100 or later (`Calendar.YearReadingsAgree`). `Plan.FirstDayTwoDigitYear` shows the handler as written fetching `1924-02-28` for `date=0024-02-28`.
