# slow-query-converter in Dafny

A model of the MariaDB slow-query-log to CSV converter (`src/main.rs`).
The converter reads a slow query log line by line. Each line is one of the following:

- a `# Time:` header, which sets a sticky time;
- a `# User@Host:` header, which closes the entry being built and starts a new one;
- one of three metadata headers (`Thread_id`/`Schema`/`QC_hit`, `Query_time`/`Lock_time`/`Rows_sent`/`Rows_examined`, `Rows_affected`/`Bytes_sent`), which fill their own fields;
- a body line, which is appended to the query;
- anything else, which is ignored.

The first pattern that matches decides. An entry is written out when it is closed, but only if it is valid, meaning it has a thread id. The entry that is open at the end of the input is closed as well. Each written record has 15 columns in header order. Before writing, the query is cleaned up:

- the first `SET timestamp=<digits>;` and the first `use <schema>;` go to columns of their own;
- they are cut out of the query;
- the remaining text is flattened to one line of trimmed, non-blank lines joined by single spaces.

Files and modules:

- `options.dfy` (`Options`): an `Option` type with failure propagation.
- `text.dfy` (`Text`): whitespace (Unicode `White_Space`, as Rust's `char::is_whitespace`, `str::trim` and regex `\s` use it), `trim`, `lines`, `split_whitespace`/`join`, and decimal digits.
- `entries.dfy` (`Entries`): the `SlowQueryEntry` record, `is_valid`, and the `u64` counter parse.
- `classify.dfy` (`LineClassifier`): the five header regexes as functions that return the captures, and the dispatch order of the loop.
- `cleanup.dfy` (`Cleanup`): the two directive regexes, first-match removal, flattening, and the CSV record of an entry.
- `converter.dfy` (`Converter`): the loop.
  - `Apply`/`Step`/`Run`/`Parse` give its meaning on values, with lemmas about one step and about whole logs.
  - The class `SlowLogConverter` holds the loop's variables as fields that its methods update in place.
  - The method `Convert` drives the class over a whole log and is proved to produce `[Header] + Rows(Parse(lines))`.

Behaviour of the code worth knowing (the model follows the code throughout):

- **A log with no `User@Host` line can still yield a record.** A `Thread_id` line makes the default entry valid, and the final flush writes it. This is stated in `Converter.ParseWithoutUserHost`.
- **The query column is flattened to a single line.** It is not kept multi-line, although the comment at src/main.rs:4-5 calls the `query` field multiline-aware.
- **Cleaning a query twice can change it again.** Only the first `SET timestamp` match is removed, so a query holding two of them keeps the second. `SET timestamp=1;` on two lines cleans to one `SET timestamp=1;`, and cleaning that gives the empty query. This is stated in `Cleanup.CleanTwiceDiffers` and `Cleanup.CleanTwiceExample`.
- **The two directive columns and their removal use different texts.** The columns are looked up in the original query. The `use` removal is looked up in the text left after the `SET timestamp` removal. `Cleanup.CleanedQuery` keeps this order.

## Model

| member | source | states |
|---|---|---|
| Entries.Entry.IsValid | src/main.rs:136-138 | The definition of `is_valid`: an entry is valid iff its thread id is non-empty. Its properties are carried by `Converter.ParseEmitsValid` and `Converter.RunCurrentValid`. |
| Entries.Default | src/main.rs:41-58 | The definition of `SlowQueryEntry::default()`: empty strings, zero counters and an empty query. `Started` states what a new entry shares with it. |
| Entries.Started | src/main.rs:226-229 | A new entry carries the sticky time, the user and the host. Every other field is the default. The new entry is not valid. |
| Entries.ParseShowU64 | src/main.rs:126-129 | The decimal text the writer prints for a `u64` counter parses back to the same counter. |
| Entries.ParseU64Overflow | src/main.rs:247-253 | A digit run too large for `u64` (more than 20 digits, no leading zero) makes `parse().unwrap_or(0)` read 0. |
| Entries.ParseU64 | src/main.rs:247-253 | The definition of `parse::<u64>().unwrap_or(0)` on a captured digit run: its decimal value when that is below 2^64, else 0. Its properties are `ParseShowU64` and `ParseU64Overflow`. |
| Text.Trim | src/main.rs:102 | A trimmed string has no whitespace at either end and is no longer than the input. |
| Text.TrimStartSuffix | src/main.rs:102 | Trimming the start removes a whitespace-only prefix and keeps the rest unchanged. |
| Text.TrimEndPrefix | src/main.rs:102 | Trimming the end removes a whitespace-only suffix and keeps the rest unchanged. |
| Text.TrimEmpty | src/main.rs:102-103 | A line trims to the empty string iff it is all whitespace. |
| Text.TrimOneLine | src/main.rs:102 | Trimming a text with no line break gives a text with no line break. |
| Text.TrimAround | src/main.rs:69 | Trimming a tight, non-empty core wrapped in whitespace gives back exactly that core. |
| Text.LinesRoundTrip | src/main.rs:101 | Joining the pieces of `lines` with `'\n'` gives back the text. |
| Text.LinesHaveNoBreaks | src/main.rs:101 | No piece of `lines` contains a line break. |
| Text.LinesOfOneLine | src/main.rs:101 | A text without a line break is a single line. |
| Text.Lines | src/main.rs:101 | The pieces between line breaks (at least one). Its properties are `LinesRoundTrip`, `LinesHaveNoBreaks` and `LinesOfOneLine`. |
| Text.Words | src/main.rs:162 | The definition of `split_whitespace`: the maximal runs of non-whitespace, in order. Its properties are `WordsAreWords`, `WordsOfJoin`, `WordsAppend` and `WordsOfTrim`. |
| Text.WordsAreWords | src/main.rs:162 | `split_whitespace` yields non-empty pieces without whitespace. |
| Text.WordsOfJoin | src/main.rs:162 | Splitting the single-space join of such words gives the words back (split and join are inverses). |
| Text.CollapseSpaces | src/main.rs:162 | The definition of `split_whitespace().collect().join(" ")`. Its properties are `WordsOfJoin` and `CollapseSpacesIdempotent`. |
| Text.WordsAppend | src/main.rs:162 | Splitting two texts joined at whitespace gives the words of the first followed by the words of the second. |
| Text.WordsOfTrim | src/main.rs:102 | Trimming a text keeps its words. |
| Text.WordsOfJoinWith | src/main.rs:99-110 | Joining pieces with a whitespace separator keeps the words of every piece, in order. |
| Text.WordsOfLines | src/main.rs:101 | The words of the pieces of `lines`, taken in order, are the words of the text. |
| Text.CollapseSpacesIdempotent | src/main.rs:162 | Joining the words of the text with single spaces a second time changes nothing. |
| Text.DecimalRoundTrip | src/main.rs:126-129 | The decimal text of a number reads back as the number. |
| LineClassifier.MatchTime | src/main.rs:20 | A line matches iff it starts with `# Time: `. The capture is the rest of the line. |
| LineClassifier.MatchUserHost | src/main.rs:21-22 | A match is a `User@Host` capture pair, and only lines starting with `# User@Host: ` match. |
| LineClassifier.MatchUserHostWhen | src/main.rs:21-22 | The User@Host pattern matches iff the line starts with the marker and a ` @` follows it somewhere. |
| LineClassifier.MatchUserHostComplete | src/main.rs:21-22 | A line made of the marker, a user without ` @`, ` @`, a whitespace run and a host not starting with whitespace yields exactly that user and host. |
| LineClassifier.MatchUserHostSound | src/main.rs:21-22 | Every match is such a line, for some whitespace run. |
| LineClassifier.MatchUserHostIff | src/main.rs:21-22 | The captures are a given user and host iff the line is the marker, that user, ` @`, a whitespace run and that host, with the lazy user free of ` @`. |
| LineClassifier.MatchUserHostShape | src/main.rs:21-22 | The line reads marker, user, ` @`, a whitespace run, host. The user holds no ` @` (the lazy group). The host does not begin with whitespace. |
| LineClassifier.UserHostCaptures | src/main.rs:21-22 | The user is the text before the first ` @` after the marker. The host is what follows the whitespace run after it. |
| LineClassifier.UserIsLazy | src/main.rs:22 | A user capture taken before the first ` @` contains no ` @` itself. |
| LineClassifier.MatchThreadInfo | src/main.rs:23-24 | A match has a non-empty all-digit thread id. Its lazily captured schema does not end in whitespace. Only lines starting with `# Thread_id: ` match. |
| LineClassifier.MatchThreadInfoComplete | src/main.rs:23-24 | A line made of the marker, a maximal digit run, a whitespace run, `Schema: `, a text ending in whitespace with no earlier whitespace-preceded `QC_hit: `, then `QC_hit: ` and the rest yields that id, the text trimmed at its end, and the rest. |
| LineClassifier.MatchThreadInfoSound | src/main.rs:23-24 | Every match is such a line. |
| LineClassifier.MatchThreadInfoIff | src/main.rs:23-24 | The captures are a given id, schema and qc_hit iff the line has that shape and the schema is the text before the first whitespace-preceded `QC_hit: `, trimmed at its end. |
| LineClassifier.MatchQueryStats | src/main.rs:25-30 | A match has non-empty timing captures and non-empty all-digit row counts. Only lines starting with `# Query_time: ` match. |
| LineClassifier.MatchQueryStatsComplete | src/main.rs:25-30 | A line made of the marker and the four labelled fields, as maximal runs separated by non-empty whitespace, yields those four captures. |
| LineClassifier.MatchQueryStatsSound | src/main.rs:25-30 | Every match is such a line, for some gaps and some text after the last counter. |
| LineClassifier.MatchQueryStatsIff | src/main.rs:25-30 | The captures are the given four iff the line has that shape. |
| LineClassifier.MatchRowStats | src/main.rs:31-32 | A match has non-empty all-digit `Rows_affected` and `Bytes_sent` captures. Only lines starting with `# Rows_affected: ` match. |
| LineClassifier.MatchRowStatsComplete | src/main.rs:31-32 | A line made of the marker, a maximal digit run, whitespace, `Bytes_sent: ` and a maximal digit run yields those two captures. |
| LineClassifier.MatchRowStatsSound | src/main.rs:31-32 | Every match is such a line. |
| LineClassifier.MatchRowStatsIff | src/main.rs:31-32 | The captures are the given two iff the line has that shape. |
| LineClassifier.HeadersStartWithHash | src/main.rs:20-32 | Every line that a header regex matches starts with `#`. |
| LineClassifier.ClassifyHeaders | src/main.rs:218-250 | First match wins. A line is a Time line iff the Time regex matches. It is a User@Host line iff that regex matches and the Time regex does not. The same holds for Thread_id, Query_time and Rows_affected lines: each is that kind iff its regex matches and none of the regexes tried before it does. |
| LineClassifier.ClassifyBody | src/main.rs:254 | A line is a body line iff it does not start with `#` and is not blank. A body line carries the line unchanged. |
| LineClassifier.ClassifyIgnored | src/main.rs:218-261 | A line is ignored iff no header regex matches and it starts with `#` or is blank. |
| LineClassifier.Classify | src/main.rs:218-254 | The dispatch of the main loop: the five header patterns in order, then a body line, else ignored. Its properties are `ClassifyHeaders`, `ClassifyBody` and `ClassifyIgnored`. |
| LineClassifier.NeitherTimeNorUserHost | src/main.rs:20-24 | A line that starts with the Thread_id marker matches neither the Time nor the User@Host pattern, so the Thread_id pattern decides it. |
| LineClassifier.ThreadInfoExample | src/main.rs:23-24 | `# Thread_id: 5  Schema: test  QC_hit: No` is classified as a Thread_id line with id `5`, schema `test` and qc_hit `No`. |
| LineClassifier.UserHostExample | src/main.rs:21-22 | `# User@Host: root[root] @ localhost []` is classified as a User@Host line with user `root[root]` and host `localhost []`. |
| LineClassifier.BodyExample | src/main.rs:254 | `SELECT 1;` is classified as a body line that carries the line itself. |
| Cleanup.CoreLength | src/main.rs:36-39 | A directive match starts with the keyword in any case and ends in `;`. For `SET timestamp=` the argument is a non-empty digit run. |
| Cleanup.CoreLengthSetIff | src/main.rs:36-37 | `SET timestamp=\d+;` takes exactly `c` characters iff they are the keyword in any case, a non-empty digit run and `;`. |
| Cleanup.CoreLengthUseIff | src/main.rs:38-39 | `` use `?\w+`?; `` takes exactly `c` characters iff they are the keyword in any case, an optional backtick, a non-empty word run, an optional backtick and `;`. |
| Cleanup.CoreLengthExtend | src/main.rs:36-39 | A whole directive is still recognised with any text after it. |
| Cleanup.FindFromFirst | src/main.rs:68 | A match at `p` with no match between the search start and `p` is the one the search reports. |
| Cleanup.DirectiveAtStart | src/main.rs:67-97 | A query opening with a directive followed by whitespace has that directive as its column, and removing it leaves the text after the whitespace. |
| Cleanup.MatchEnd | src/main.rs:36-39 | Where `\s*<directive>\s*` tried at a position ends, if it matches there: past the directive, after both whitespace runs. `MatchEndAt` and `MatchEndOf` state when it does. |
| Cleanup.Find | src/main.rs:68 | The definition of `Regex::find` on a directive pattern: the leftmost position where `MatchEnd` succeeds. Its properties are `FindFromLeftmost`, `FindFromFirst` and `RemoveFirstCutsLeftmostMatch`. |
| Cleanup.FindFromLeftmost | src/main.rs:68 | No position before the one `find` returns starts a match. |
| Cleanup.DirectiveTextShape | src/main.rs:67-79 | A directive column is empty iff the pattern does not occur. Otherwise it is a tight `keyword … ;` text. |
| Cleanup.MatchShape | src/main.rs:69 | A trimmed match has the directive's shape. |
| Cleanup.RemoveFirstCutsLeftmostMatch | src/main.rs:85-97 | `Find` reports none iff the pattern matches at no position. Otherwise the span cut out is a match, no match starts before it, and the text shrinks. Without a match the text is unchanged. |
| Cleanup.RemoveFirst | src/main.rs:85-97 | The definition of the removal: the text before the leftmost match followed by the text after it, or the text unchanged. Its properties are `RemoveFirstCutsLeftmostMatch` and `DirectiveAtStart`. |
| Cleanup.DirectiveText | src/main.rs:67-79 | The definition of a directive column: the trimmed leftmost match, or empty. Its properties are `DirectiveTextShape` and `DirectiveAtStart`. |
| Cleanup.NonBlankTrimmedTight | src/main.rs:102-108 | The kept lines are non-empty and trimmed. |
| Cleanup.NormalizeShape | src/main.rs:99-110 | The flattened query has no line break and no whitespace at either end. |
| Cleanup.NormalizeEmpty | src/main.rs:99-110 | The flattened query is empty iff every line of the text is blank. |
| Cleanup.NormalizeIdempotent | src/main.rs:99-110 | Flattening a flattened query changes nothing. |
| Cleanup.NormalizeKeepsWords | src/main.rs:99-110 | Flattening keeps every word of the text, in order: only whitespace is dropped or replaced. |
| Cleanup.Normalize | src/main.rs:99-110 | The definition of the flattened query: trimmed non-blank lines joined by single spaces. Its properties are `NormalizeShape`, `NormalizeEmpty`, `NormalizeIdempotent`, `NormalizeKeepsWords` and `Flatten`. |
| Cleanup.Flatten | src/main.rs:99-110 | The loop that pushes trimmed non-blank lines with a single-space separator computes the flattened query. |
| Cleanup.CleanedQuery | src/main.rs:83-110 | The definition of the query column: the first SET match removed, then the first USE match in what is left, then flattened. Its properties are `CleanQuery`, `DirectivesThenStatement` and `CleanTwiceDiffers`. |
| Cleanup.CleanQuery | src/main.rs:65-110 | The two directive columns are the trimmed first matches in the original query. The query column is the text with the first SET and then the first USE removed, flattened. It has no line break and no outer whitespace. |
| Cleanup.DirectivesThenStatement | src/main.rs:65-110 | A query made of a SET directive, whitespace, a USE directive, whitespace and a statement has the two directives as its columns, and its query column is the flattened statement. |
| Cleanup.CleanQueryExample | src/main.rs:65-110 | `SET timestamp=123;`, `use mydb;` and `SELECT 1;` on three lines give the columns `SET timestamp=123;`, `use mydb;` and `SELECT 1;`. |
| Cleanup.CleanTwiceDiffers | src/main.rs:85-91 | For a SET directive written twice on two lines, cleaning leaves one copy, whose SET column is the directive again, and cleaning that result changes it. |
| Cleanup.CleanTwiceExample | src/main.rs:85-91 | `SET timestamp=1;` written twice cleans to `SET timestamp=1;`, whose SET column is `SET timestamp=1;`. |
| Cleanup.Header | src/main.rs:193-209 | The 15 column names of the header row, in order. `RowColumns` aligns every record with it. |
| Cleanup.RowWith | src/main.rs:112-130 | The definition of the 15 fields handed to the CSV writer, given the three query columns. Its properties are `RowColumns`. |
| Cleanup.RowColumns | src/main.rs:112-130 | A record has 15 fields aligned with the 15 header names of src/main.rs:193-209. The identity fields come first, then the three query columns, and the counter columns parse back to the entry's counters. |
| Cleanup.RowOf | src/main.rs:112-130 | The definition of the record of an entry: the 15 fields with the three query columns computed from the entry's query. Its properties are `RowColumns` and `WriteRecord`. |
| Cleanup.FloatColumn | src/main.rs:126-127 | The definition of an `f64` column: `0` for a field never captured, else the float text of the capture, left as a parameter. |
| Cleanup.WriteRecord | src/main.rs:63-132 | The record written for an entry is its row. It has one field per header column, and its query field is a single tight line. |
| Converter.FormatLogTime | src/main.rs:161-165 | The definition of `format_log_time`: the words of the text joined by single spaces are handed to the time parser, a parameter. `FormatLogTimeInput` and `TimeValue` carry its properties. |
| Converter.FormatLogTimeInput | src/main.rs:162 | The text handed to the time parser has the same words as the raw time, and building it is idempotent. |
| Converter.TimeValue | src/main.rs:218-220 | The sticky time is the reformatted time when the parse succeeds. Otherwise it is the trimmed raw text. |
| Converter.TakeUntil | src/main.rs:231 | The first piece of `split('[')` is the longest prefix without `[`. |
| Converter.TakeUntilFirst | src/main.rs:231 | On a text holding the character, `split(c).next()` is exactly the text before its first occurrence. |
| Converter.CleanUser | src/main.rs:230-231 | The user is the longest `[`-free prefix of the trimmed capture. |
| Converter.TrimJunkStartSuffix | src/main.rs:233-235 | Trimming `[`, `]` and space at the start removes only such characters. |
| Converter.TrimJunkEndPrefix | src/main.rs:233-235 | Trimming `[`, `]` and space at the end removes only such characters. |
| Converter.TrimJunk | src/main.rs:232-235 | `trim_matches` of `[`, `]` and space: the result neither starts nor ends with one of them. `TrimJunkStartSuffix`, `TrimJunkEndPrefix` and `TrimJunkEmpty` say only such characters are removed. |
| Converter.TrimJunkEmpty | src/main.rs:233-235 | The host trims to empty iff it consists of `[`, `]` and spaces only. |
| Converter.CleanHost | src/main.rs:232-235 | The host neither starts nor ends with `[`, `]` or space. |
| Converter.CleanUserOfBracketed | src/main.rs:230-231 | A trimmed user capture made of a `[`-free name, `[` and anything after it gives that name. |
| Converter.TrimJunkEndJunk | src/main.rs:232-235 | Stripping the end removes exactly a tail of brackets and spaces that follows a character that is none of them. |
| Converter.CleanHostOfPadded | src/main.rs:232-235 | A trimmed host capture made of a name that neither starts nor ends with a bracket or space, then brackets and spaces, gives that name. |
| Converter.CleanUserExample | src/main.rs:230-231 | The user capture `root[root]` gives the user `root`. |
| Converter.CleanHostExample | src/main.rs:232-235 | The host capture `localhost []` gives the host `localhost`. |
| Converter.Close | src/main.rs:222-225 | Closing an entry writes it iff it is valid. |
| Converter.Apply | src/main.rs:218-261 | The definition of one iteration of the loop on the kind of the line. Its properties are the `Step…` lemmas below. |
| Converter.Run | src/main.rs:215-262 | The definition of the state after the loop has run over lines of the given kinds. |
| Converter.Parse | src/main.rs:215-267 | The definition of the entries written for a log: those closed during the loop, then the final flush. |
| Converter.StepTime | src/main.rs:218-220 | A Time line changes only the sticky time: the reformatted time, or the trimmed raw text when parsing fails. |
| Converter.StepUserHost | src/main.rs:221-235 | A User@Host line writes the previous entry iff it is valid. The new entry has the sticky time, the user `CleanUser` of the capture and the host `CleanHost` of the capture; the user is `[`-free and the host has no junk at its ends. All its other fields are defaults, and it is not valid. |
| Converter.StepThreadInfo | src/main.rs:236-239 | A Thread_id line sets the thread id to the capture and the schema and qc_hit to the trimmed captures. Nothing else changes, and the entry becomes valid. |
| Converter.StepQueryStats | src/main.rs:240-249 | A Query_time line sets the two timings to the captured texts and the two row counts to the captures parsed as `u64`, with 0 on overflow. Nothing else changes. |
| Converter.StepRowStats | src/main.rs:250-253 | A Rows_affected line sets only `rows_affected` and `bytes_sent`. |
| Converter.StepBody | src/main.rs:254-261 | A body line appends the line and `\n` to the query and changes nothing else. |
| Converter.StepIgnored | src/main.rs:254 | Any other line changes nothing. |
| Converter.StepEmits | src/main.rs:215-262 | A line writes at most one entry, and only a User@Host line writes one. Earlier records are never changed. |
| Converter.StepKeepsValid | src/main.rs:222-225 | If every written entry is valid, that stays so after one more line. |
| Converter.RunEmitsValid | src/main.rs:136-138 | Every entry written during the loop is valid. |
| Converter.ParseEmitsValid | src/main.rs:264-267 | Every entry written for a log, the final flush included, is valid. |
| Converter.RunEmitsAtMostUserHost | src/main.rs:221-225 | The loop writes no more entries than there are User@Host lines. |
| Converter.ParseCount | src/main.rs:221-267 | A log yields at most one record more than it has User@Host lines. |
| Converter.RunWithoutUserHost | src/main.rs:236-237 | Without User@Host lines nothing is written during the loop. The entry is valid iff a Thread_id line was seen. |
| Converter.ParseWithoutUserHost | src/main.rs:264-267 | A log without User@Host lines yields at most one record. It yields exactly one iff some line is a Thread_id line. |
| Converter.ThreadSinceUserHostSnoc | src/main.rs:221-239 | A Thread_id line follows the last User@Host line after one more line iff that line is not User@Host, and it is a Thread_id line or one already did. |
| Converter.StepValidity | src/main.rs:221-239 | After one line the entry is valid iff the line is not User@Host, and it is a Thread_id line or the entry was valid. |
| Converter.RunCurrentValid | src/main.rs:215-262 | The open entry is valid iff a Thread_id line came after the last User@Host line, or anywhere when there is none. |
| Converter.RunEmittedCount | src/main.rs:221-225 | The loop writes one entry per User@Host line that closes a valid entry, and no other. |
| Converter.ParseExactCount | src/main.rs:215-267 | The number of records is the number of User@Host lines that close a valid entry, plus one iff a Thread_id line follows the last User@Host line (or the start). |
| Converter.KindsOfThreadIds | src/main.rs:24 | Every classified Thread_id line carries a non-empty thread id. |
| Converter.RunLastSeenTime | src/main.rs:212-220 | The sticky time is the value of the last Time line so far, or empty before any. |
| Converter.EntryTimeIsLastTime | src/main.rs:226-229 | An entry started on a User@Host line carries the value of the last Time line before it. |
| Converter.OneEntryRun | src/main.rs:215-267 | A User@Host line, a Thread_id line with an id and one body line write exactly one entry: the started entry with the thread fields and the line plus `\n` as its query. |
| Converter.OneEntryLog | src/main.rs:215-267 | A log of a User@Host line, a Thread_id line and one query line yields exactly one record: no time, the cleaned user and host, the thread id, the trimmed schema and qc_hit, and the query line plus `\n`. |
| Converter.LogExample | src/main.rs:193-267 | The log `# User@Host: root[root] @ localhost []`, `# Thread_id: 5  Schema: test  QC_hit: No`, `SELECT 1;` yields the single entry with user `root`, host `localhost`, thread id `5`, schema `test`, qc_hit `No`, default timings and counters, and query `SELECT 1;` plus `\n`. |
| Converter.RowsSnoc | src/main.rs:223 | Writing one more entry appends exactly its record. |
| Converter.AppendRecord | src/main.rs:223 | Appending the record of an entry to the output keeps the output equal to the header followed by the rows of the written entries. |
| Converter.SlowLogConverter.constructor | src/main.rs:193-213 | The output holds only the header row. The entry is the default, no time has been seen, and the count is zero. |
| Converter.SlowLogConverter.Flush | src/main.rs:223-224 | Writes the current entry's record and increments the count. The output still equals the header plus the rows of the written entries. |
| Converter.SlowLogConverter.WriteIfValid | src/main.rs:222-225 | The current entry is written iff it is valid. |
| Converter.SlowLogConverter.ProcessLine | src/main.rs:215-262 | One iteration updates the fields exactly as `Step` does. The output stays the header plus the rows of the written entries. |
| Converter.SlowLogConverter.Handle | src/main.rs:218-261 | Dispatching on the line's kind updates the fields as `Apply` does. |
| Converter.SlowLogConverter.OnTime | src/main.rs:218-220 | Only the sticky time changes, to the reformatted or raw time. |
| Converter.SlowLogConverter.OnUserHost | src/main.rs:221-235 | The previous entry is written iff valid. The new current entry is started from the sticky time, the cleaned user and the cleaned host. |
| Converter.SlowLogConverter.StartEntry | src/main.rs:226-235 | The current entry becomes the started entry for the cleaned user and host. |
| Converter.SlowLogConverter.OnThreadInfo | src/main.rs:236-239 | Only thread id, trimmed schema and trimmed qc_hit change. |
| Converter.SlowLogConverter.OnQueryStats | src/main.rs:240-249 | Only the two timings and the two row counts change. |
| Converter.SlowLogConverter.OnRowStats | src/main.rs:250-253 | Only `rows_affected` and `bytes_sent` change. |
| Converter.SlowLogConverter.OnBody | src/main.rs:254-261 | Only the query changes: the line and `\n` are appended. |
| Converter.Convert | src/main.rs:193-267 | The records are the header followed by one row per entry that `Parse` yields for the log. The count is the number of those entries. |

## Left out

- Command-line parsing (`clap`), opening files and the stderr progress messages are left out. The model takes the log as a sequence of lines. Each line has no `'\n'`, as `BufRead::lines` delivers it, and read errors are not modelled.
- The CSV writer's quoting and escaping (`QuoteStyle::NonNumeric`) and `flush` are left out. A record is modelled as the sequence of its 15 field texts.
- chrono's `parse_from_str` and `format` are a parameter `parse` of the model. The model proves what text is handed to it and what happens when it fails.
- Floating point is left out. `query_time` and `lock_time` keep the captured text. Their `parse::<f64>().unwrap_or(0.0).to_string()` is a parameter `showFloat`, and an entry that never saw the field prints `0`.
- The regex engine is left out. Each regex is modelled by hand as a function with the same leftmost, greedy and lazy behaviour on these patterns.
  - `\d` and `\w` are modelled as their ASCII subsets; Unicode digits and word characters are not.
  - `(?i)` folds ASCII letters and `s`/`ſ` (U+017F), the only non-ASCII fold of a letter in the two directive keywords.
- `Text.Lines` keeps a final empty piece and a `'\r'` before a `'\n'`, which `str::lines` drops. Every use trims each piece and drops blank ones, so the flattened query is the same.
- `entry_count` is Rust's default `i32` in the source. The model uses an unbounded `nat` and does not model the overflow after 2^31 - 1 entries.
- Memory pre-allocation (`reserve`, `with_capacity`) has no observable effect and is left out.
