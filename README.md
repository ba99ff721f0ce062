# WhatsApp chat analyzer — a Dafny model of its counting core

The analyzer reads an exported WhatsApp transcript, cuts it into messages at
every timestamp, works out who sent each message and when, and then answers
count queries over those messages for one sender or for everybody
("Overall"): message, word, media and link totals; the busiest senders; the
most common words; emoji frequencies; the word-cloud corpus; monthly and
daily timelines; weekday and month activity; and a weekday × hour-of-day
heatmap. The dashboard adds a sender picker and lines the heatmap up against
a fixed list of 24 hour labels.

This project models that core in Dafny and proves what each step promises.

| file | module | what it holds |
|---|---|---|
| `common.dfy` | `Common` | `Option`, `Result`, `Distinct` |
| `text.dfy` | `Text` | whitespace, ASCII case mapping, `str.split()` as `Words`, `" ".join` as `Join`, decimal numerals, string order and sorting |
| `boundary.dfy` | `Boundary`, `Scan` | a recogniser for the one timestamp pattern, a leftmost-first scan, `re.split`/`re.findall` with that pattern |
| `preprocessor.dfy` | `Preprocessor` | timestamp normalisation, the sender split, the hour label, the per-message loops and `preprocess` itself |
| `counting.dfy` | `Counting` | `Counter`, `value_counts`, `most_common`, `groupby(...).count()` on sequences |
| `helper.dfy` | `Helper` | every query of `helper.py` |
| `app.dfy` | `App` | the sender picker and the heatmap reindex of `app.py` |

Records are values: a `Record` holds the sender, the message, the calendar date, the
month name, the weekday name, the hour (0..23) and the hour label. The
transcript-wide table is a `seq<Record>`. The loops of the source that grow a
list (`users`/`messages`, `period`, `words`, `links`, `emojis_list`) are
methods with loops, proved against the functions that specify them. The
picker's `user_list` is built without a loop (`unique`, `remove`, `sort`,
`insert`), and `App.UserPicker` is a method of the same sequence updates. The group-and-count expressions are functions.

Counting follows `collections.Counter`: keys in first-seen order, and
`most_common` sorts by count, descending, with ties in first-seen order.
`Counting.ValueCountsUnique` shows that this ranking is the only one with
those properties. `value_counts` is modelled the same way.

## Model

| member | source | states |
|---|---|---|
| Boundary.RecogniseSound | preprocessor.py:6 | a recognised timestamp satisfies every part of the pattern: 1–2 digit day and month, 2–4 digit year, `,`, a whitespace character, 1–2 digit hour, `:`, two digits, optional whitespace, optional `AM`/`PM`/`am`/`pm`/`a.m.`/`p.m.` with unescaped dots, optional whitespace, `-` and whitespace |
| Boundary.RecogniseComplete | preprocessor.py:6 | every way the pattern can match at a position is found by the recogniser, with the same date and hour fields |
| Boundary.MatchAtExactly | preprocessor.py:6 | a match starts at position i exactly when some reading of the pattern fits there |
| Boundary.Group | preprocessor.py:6 | a digit group followed by its separator is found whenever one exists, and it is the only one |
| Boundary.Boundaries | preprocessor.py:9-10 | the matches form a leftmost-first, non-overlapping scan of the text |
| Scan.LeftmostScanUnique | preprocessor.py:9-10 | there is exactly one leftmost-first scan of a text |
| Scan.Search | preprocessor.py:9-10 | the search returns the first position where the pattern matches, and no position before it matches |
| Boundary.SplitPairs | preprocessor.py:9-10 | `findall` yields one timestamp per match and `split` one body per match plus the dropped prefix; each body runs from the end of its timestamp to the start of the next |
| Boundary.SplitRoundTrip | preprocessor.py:9-10 | the dropped prefix followed by each timestamp and its body, in order, rebuilds the text exactly |
| Boundary.ReSplit | preprocessor.py:9 | `split` yields one more piece than `findall` finds timestamps |
| Boundary.NoBoundaryNoBodies | preprocessor.py:9-12 | with no match, there are no timestamps and `split` returns the whole text as the one dropped piece |
| Scan.RoundTrip | preprocessor.py:9-10 | for any matcher that advances, the split pieces interleaved with the matches rebuild the text |
| Preprocessor.Normalize | preprocessor.py:15-16 | narrow no-break spaces become spaces, every other character is upper-cased, and the length is kept |
| Preprocessor.NormalizeClean | preprocessor.py:15-16 | the result has no narrow no-break space and no lower-case letter |
| Preprocessor.NormalizeIdempotent | preprocessor.py:15-16 | normalising twice equals normalising once |
| Preprocessor.FindSeparator | preprocessor.py:35 | finds the first `:` followed by whitespace at or after a position, and none exists before it |
| Preprocessor.SenderMatch | preprocessor.py:35 | the lazy group `([\w\W]+?):\s` matches from p exactly when a separator exists after p, and the match ends just after the first one |
| Preprocessor.SplitKeep | preprocessor.py:35 | `re.split` with one capture group gives an odd number of pieces |
| Preprocessor.JoinSplitKeep | preprocessor.py:35-38 | `" ".join` of the split pieces from a position is the text from there with every separator cut out and the text between separators set off by single spaces |
| Preprocessor.AttributeFound | preprocessor.py:35-38 | when `:` plus whitespace occurs at some index ≥ 1, the sender is the body up to the first such index and is never empty; the message is the stitched remainder |
| Preprocessor.AttributeNotFound | preprocessor.py:39-41 | with no `:` plus whitespace at index ≥ 1, the sender is `group_notification` and the message is the body unchanged |
| Preprocessor.AttributeSingle | preprocessor.py:35-38 | when the sender's separator is the only one, the message is exactly the body after the `:` and its whitespace |
| Preprocessor.AttributeExample | preprocessor.py:35-38 | example: `Alice: a: b` gives sender `Alice` and message ` a b` |
| Preprocessor.AttributeAll | preprocessor.py:32-44 | the users and messages lists have one entry per body, in order, each the attribution of its body |
| Preprocessor.PeriodLabelReadsBack | preprocessor.py:58-67 | every hour's label reads back as that hour; the end hour is the next hour, except that hour 11 ends at 0 and hour 23 at 12 |
| Preprocessor.PeriodLabelRead | preprocessor.py:58-67 | reading an hour's label gives the hour and its end hour exactly |
| Preprocessor.PeriodLabelInjective | preprocessor.py:58-67 | the 24 labels are pairwise distinct |
| Preprocessor.PeriodLabelEleven | preprocessor.py:62-63 | example: hour 11 is labelled `11 AM - 12 AM` and hour 23 `11 PM - 12 PM` |
| Preprocessor.ReadPeriodOfClocks | preprocessor.py:63 | a label built from two clock readings reads back as those two hours |
| Preprocessor.PeriodColumn | preprocessor.py:58-69 | the period list has one label per hour, in order |
| Preprocessor.ParseAll | preprocessor.py:19-27 | the instants are produced only if every normalised timestamp parses, and then they are the parses in order |
| Preprocessor.Assemble | preprocessor.py:29-69 | one record per body, in order, each built from its body and instant, and each well formed |
| Preprocessor.Preprocess | preprocessor.py:9-69 | fails exactly when some normalised timestamp does not parse; otherwise one record per timestamp, paired by position with its body, each well formed; no timestamp in the text gives no records |
| Preprocessor.NoBoundaryNoRows | preprocessor.py:9-12 | a text with no match has no timestamps |
| Text.Words | helper.py:17 | `str.split()` yields non-empty tokens without whitespace |
| Text.WordsKeepNonSpace | helper.py:17 | the tokens, concatenated, are the text with its whitespace removed |
| Text.WordsAcrossSpace | helper.py:17 | splitting at a whitespace character splits the two sides independently |
| Text.WordsOfJoin | helper.py:57 | splitting the space-joined texts gives the tokens of every text in order |
| Text.SplitJoinRoundTrip | helper.py:52 | joining tokens with spaces and splitting again gives the tokens back |
| Text.Lower | helper.py:52 | lower-casing maps each ASCII capital to its small letter and keeps every other character |
| Text.Upper | preprocessor.py:16 | upper-casing maps each ASCII small letter to its capital and keeps every other character |
| Text.NumeralValue | helper.py:100 | the decimal numeral of n reads back as n |
| Text.NumeralInjective | helper.py:100 | different numbers have different numerals |
| Text.Sort | app.py:25 | the sorted list is a permutation of the input in ascending order |
| Text.SortStrict | app.py:25 | names without repeats sort into a strictly ascending list |
| Text.LessTotal | app.py:25 | any two different strings are ordered one way or the other |
| Text.LessTransitive | app.py:25 | string order is transitive |
| Counting.Count | helper.py:76 | `Counter`: each distinct value once, in first-seen order, with its exact number of occurrences, and every value present |
| Counting.CountTotal | helper.py:76 | the counts of a `Counter` add up to the length of the input |
| Counting.Rank | helper.py:91 | ranking keeps the entries and sorts them by count, descending |
| Counting.RankOrder | helper.py:91 | ranking entries in first-seen order gives count-descending order with ties in first-seen order |
| Counting.ValueCounts | helper.py:116 | exact counts of every distinct value, in count-descending order with first-seen ties, adding up to the input length |
| Counting.ValueCountsUnique | helper.py:116 | any list with exact counts, covering every value and ranked that way, is the value counts |
| Counting.RankedUnique | helper.py:116 | two ranked lists with the same entries are equal |
| Counting.RankedDistinct | helper.py:116 | a ranked list of exact counts names each value once |
| Counting.MostCommon | helper.py:76 | `most_common(n)`: at most n entries with exact counts, ranked, each value once; every omitted value ranks after every kept one; fewer than n entries means every value is present |
| Counting.TakeRanked | helper.py:76 | the first n entries of a complete ranking rank before every value they leave out |
| Counting.GroupCount | helper.py:99 | `groupby(key).count()`: keys strictly ascending, exact counts, every value present, counts adding up to the input length |
| Counting.SortKeys | helper.py:99 | sorting by an injective key gives a permutation in strictly ascending key order |
| Counting.PermutedTotal | helper.py:99 | reordering entries keeps their total |
| Counting.CoverSum | helper.py:130 | summing the occurrences of distinct keys that cover the input gives the input length |
| Helper.OfUser | helper.py:10-11 | the filtered table holds exactly the rows of that sender, each as often as before |
| Helper.OfUserAppend | helper.py:10-11 | the mask keeps order: filtering a concatenation gives the filtered parts one after the other |
| Helper.OfUserSingle | helper.py:10-11 | a single row is kept exactly when its sender is the selected one |
| Helper.OfUserCount | helper.py:10-11 | the filtered table has as many rows as the sender has messages |
| Helper.SelectCount | helper.py:10-13 | `Overall` keeps every row; any other name keeps exactly that sender's rows |
| Helper.FetchStats | helper.py:9-25 | messages = selected rows; words = tokens of all messages; media = messages equal to `<Media omitted>\n`, never more than the messages; links = URLs found in all messages; `Overall` counts every row, `group_notification` included |
| Helper.AllWords | helper.py:15-17 | the extended list is the tokens of all messages, in order |
| Helper.AllLinks | helper.py:21-23 | the extended list is the URLs of all messages, in order |
| Helper.MostBusyUsers | helper.py:28-29 | at most 5 senders with exact message counts, descending, each once; a sender left out has no more messages than any kept one; fewer than 5 means every sender is present |
| Helper.Content | helper.py:43 | keeps exactly the rows that are neither notifications nor media, each as often as before |
| Helper.ContentAppend | helper.py:43 | the mask keeps order: filtering a concatenation gives the filtered parts one after the other |
| Helper.ContentSingle | helper.py:43 | a single row is kept exactly when it is neither a notification nor a media placeholder |
| Helper.Unstopped | helper.py:52 | keeps only words from the input that are not stopwords |
| Helper.UnstoppedAppend | helper.py:72-74 | filtering one more word adds it exactly when it is not a stopword |
| Helper.CleanWords | helper.py:72-73 | every kept word is a lower-case token and not a stopword |
| Helper.ContentWordsClean | helper.py:68-74 | every collected word is a lower-case token and not a stopword |
| Helper.Cleaned | helper.py:54 | one cleaned message per row |
| Helper.CleanedWords | helper.py:51-54 | the tokens of the cleaned messages are exactly the collected words |
| Helper.WordcloudCorpus | helper.py:43-57 | no corpus exactly when no rows remain after dropping notifications and media |
| Helper.WordcloudWords | helper.py:51-57 | the corpus splits into exactly the cleaned words of those rows, in order |
| Helper.MostCommonWords | helper.py:61-77 | the 20 most common clean words of the sender's rows, exact counts, ranked; every word a lower-case non-stopword token |
| Helper.CollectWords | helper.py:70-74 | the nested loop collects exactly the clean words of every row, in order |
| Helper.EmojisOf | helper.py:86 | keeps each emoji character of the message as often as it occurs, and nothing else |
| Helper.EmojisOfAppend | helper.py:86 | the comprehension keeps order: the emojis of a concatenation are those of each part, one after the other |
| Helper.EmojisOfSingle | helper.py:86 | a single character is kept exactly when it is an emoji |
| Helper.EmojisNone | helper.py:84-89 | no emoji is found exactly when no character of any selected message is an emoji |
| Helper.CollectEmojis | helper.py:84-86 | the extended list is the emoji characters of every message, one message after the other |
| Helper.EmojiHelper | helper.py:80-92 | the emoji counts, ranked by count with first-seen ties; empty exactly when there are no emoji; counts adding up to the number of emoji characters |
| Helper.AllOfRanking | helper.py:91 | `most_common` with as many entries as distinct values is the full ranking |
| Helper.MonthKeyOrder | helper.py:99 | month numbering orders months by year and then month, and tells them apart |
| Helper.MonthlyTimeline | helper.py:95-101 | one row per (year, month) present, in calendar order, with exact counts adding up to the selected rows; each row's label is the month name, `-` and the year |
| Helper.MonthlyOrder | helper.py:99 | rows from key-ascending groups are in calendar order |
| Helper.MonthlyCounts | helper.py:99 | each row's count is the number of selected rows in that month |
| Helper.MonthlyCover | helper.py:99 | every month with a selected row has a row |
| Helper.MonthRowsTotalIs | helper.py:99-100 | the rows' counts add up to the groups' total |
| Helper.DayKeyOrder | helper.py:108 | date numbering orders dates by year, month and day, and tells them apart |
| Helper.DailyTimeline | helper.py:104-109 | one row per date present, in calendar order, with exact counts adding up to the selected rows |
| Helper.WeekActivityMap | helper.py:112-116 | each weekday present once, exact counts, descending, adding up to the selected rows |
| Helper.MonthActivityMap | helper.py:119-123 | each month name present once, exact counts, descending, adding up to the selected rows |
| Helper.PeriodsOn | helper.py:130 | the periods of one weekday: one per row on that day, each period as often as rows share that weekday and period |
| Helper.CountRowAt | helper.py:130 | a counted cell is the number of occurrences of its column's period |
| Helper.ColumnsOf | helper.py:130 | the pivot's columns are the periods present, each once, ascending |
| Helper.ActivityHeatmapCells | helper.py:126-134 | rows are Monday..Sunday; columns are the periods present, ascending; a cell is missing exactly when its weekday has no rows, and otherwise counts the rows with that weekday and period |
| Helper.HeatRowSum | helper.py:130 | a weekday's cells add up to the rows on that weekday |
| Helper.GridSumIs | helper.py:130-133 | the cells add up to the rows whose weekday is among the table's rows |
| Helper.ActivityHeatmapTotal | helper.py:126-134 | on rows built by preprocessing, the heatmap's cells add up to the selected rows |
| App.UserPicker | app.py:20-26 | `Overall` first; after it every sender except `group_notification`, each once, strictly ascending, and nothing else |
| App.UniqueKeys | app.py:20 | `unique()` lists every sender once and nothing else |
| App.RemoveOnce | app.py:22-23 | removing the one occurrence of a value from a list without repeats leaves the other values, still without repeats |
| App.SortedPicker | app.py:25 | sorting senders listed once gives a strictly ascending list of the same senders |
| App.Reindex | app.py:112 | rows kept; columns become the given order; a kept label keeps its cells, a label the table lacks becomes zeros, other columns are dropped |
| App.AlignHeatmap | app.py:111-112 | nothing to draw exactly when the table has no row or no column; otherwise the table reindexed to the 24 labels with its rows kept: a label already present keeps its cell in every row (including blanks), and `AlignedAbsent` gives zero for the others |
| App.PeriodOrderMatches | app.py:104-109 | outside hours 11 and 23, the dashboard's label at an hour's place is the hour's label |
| App.PeriodOrderReads | app.py:104-109 | the dashboard's label at place c reads back as the hour c to the hour c+1 |
| App.PeriodOrderDistinct | app.py:104-109 | the dashboard's 24 labels are pairwise distinct |
| App.PeriodLabelInOrder | app.py:104-109 | an hour's label is among the dashboard's columns exactly when the hour is neither 11 nor 23 |
| App.UnusedColumns | app.py:105 | no hour is labelled `11 AM - 12 PM` or `11 PM - 12 AM` |
| App.ActivityHeatmapShaped | helper.py:130-133 | the heatmap has 7 rows, each with one cell per column, and no repeated column |
| App.ElevenAbsent | helper.py:130 | on rows built by preprocessing, the labels `11 AM - 12 PM` and `11 PM - 12 AM` are never heatmap columns |
| App.AlignedAbsent | app.py:112 | a dashboard label missing from the table is a column of zeros after alignment |
| App.ElevenColumnsZero | app.py:104-112 | on rows built by preprocessing, the aligned `11 AM - 12 PM` and `11 PM - 12 AM` columns are zero in every row |

## Left out

- Pattern classes: `\d` is taken as the ASCII digits. `\s` covers the ASCII whitespace characters and the Unicode spaces listed in `Text.IsSpace`. Upper- and lower-casing act on ASCII letters only. Python's full Unicode tables are not modelled.
- General regular expressions: only the timestamp pattern and the sender pattern are modelled, each by hand.
- Date parsing with `pd.to_datetime` and the calendar fields derived from it are library behaviour. The parse is a parameter `parse: string -> Option<Instant>` giving date, weekday and hour. Month and weekday names come from fixed tables.
- The minute column and the `only_date`/`day` split are not modelled separately. The date is one value of year, month and day.
- URL extraction (`URLExtract.find_urls`) is a parameter `findUrls` of `Helper.FetchStats`.
- Emoji membership (`emoji.EMOJI_DATA`) is a parameter `isEmoji` of the emoji queries.
- Reading `stop_hinglish.txt` is file I/O. The stopword list is a parameter of the word queries.
- WordCloud image generation: the model stops at the cleaned corpus string (`Helper.WordcloudCorpus`).
- `dropna().astype(str)` in the word cloud: messages are always strings in this model, so it changes nothing.
- The percentage table of `most_busy_users` uses floating-point rounding and a pandas-version-dependent rename. Only the top-5 table is modelled.
- Helper.MostBusyUsers: pandas leaves the order of equal counts in `value_counts` unspecified. The model breaks ties in first-seen order; the contract states only descending counts, exact counts and the top-5 property.
- Helper.WeekActivityMap: same tie caveat as `Helper.MostBusyUsers`. The contract states only descending and exact counts.
- Helper.MonthActivityMap: same tie caveat as `Helper.MostBusyUsers`. The contract states only descending and exact counts.
- `pivot_table` on a table with no rows is taken to give a table without columns. Its rows are still reindexed to the 7 weekdays.
- The monthly timeline groups by (year, month number). The month name is taken from the month-name table; it is determined by the month number.
- The Streamlit interface, the charts, the file upload and its UTF-8 decoding are presentation and I/O.

## Where the code and the design description differ

The model follows the code in each case.

- **Hour labels.** The design says hour 23 is labelled `11 PM - 12 AM`. The code labels hour 11 `11 AM - 12 AM` and hour 23 `11 PM - 12 PM` (`Preprocessor.PeriodLabelEleven`). The dashboard's column list uses `11 AM - 12 PM` and `11 PM - 12 AM`. Messages sent at hours 11 and 23 therefore never reach the aligned heatmap, and those two columns are always zero (`App.PeriodLabelInOrder`, `App.ElevenColumnsZero`).
- **Four-digit years.** The design describes a retry with a four-digit-year format. In the code, the retry calls `.str.replace` on a column that already holds dates, so it cannot succeed. The model treats any timestamp that fails the first format as a failure of the whole preprocessing step (`Preprocessor.Preprocess`).
- **Empty weekdays.** The design says the heatmap is zero-filled. In the code, a weekday without messages becomes a row of missing values after the weekday reindex, modelled as `Blank` cells (`Helper.ActivityHeatmapCells`). Only labels added by the dashboard's column reindex are filled with zeros.
- **Heatmap column order.** The helper's heatmap columns are the periods present, in string order. The fixed 24-label order is applied only by the dashboard (`App.AlignHeatmap`).
