# Wordle statistics: extraction and aggregation

This project models the core of `wordle_stats.py`. That script reads Telegram chat exports, picks out every shared Wordle result and builds two summaries: per-player yearly statistics and a yearly head-to-head comparison of two players. The model covers three parts.

- **Extraction** (`parse_html_files`). A message is a value with an optional author label, an optional text and an optional title. Files are sequences of messages, given in the order the script processes them.
  - The current author is reset to none at each file start. Any message with an author label updates it, even one without text.
  - The label is stripped, then every `\s+via\s+@\w+` is deleted.
  - The text is searched for the left-most `Wordle ([\d,]+) ([X\d])/6`. The puzzle number is the first group with its commas removed.
  - The title must start with `DD.MM.YYYY`. That triple becomes the record's date, and its year is the record's year.
  - Three situations abort the whole run, and the model returns each as an error:
    - a puzzle token made only of commas (`int("")` raises): `EmptyPuzzleNumber`;
    - a comma-free token of more than 4300 digits: `PuzzleNumberTooLong`. This is the limit `int()` enforces on decimal strings from CPython 3.11 on, and in the 3.7-3.10 security releases that backported it;
    - a well-formed but impossible date such as `31.02.2023`: `InvalidDate`.
  - `Extraction.ParseHtmlFiles` is the imperative loop. It is proved equal to the fold `AllRecords`.
- **Statistics** (`calculate_statistics`). The imperative method `Statistics.CalculateStatistics` updates a map from (player, year) to a bucket {total, wins, losses, attempts histogram, total attempts}. It is proved equal to the fold `StatsOf`. The bucket invariants, the counts per key, order independence and the grand total are lemmas about `StatsOf`.
- **Head to head** (`calculate_head_to_head`).
  - `HeadToHead.BuildPuzzles` fills a year → puzzle → player → attempts map, where a later record overwrites an earlier one and "X" counts as 7.
  - `HeadToHead.CalculateDuels` then scores, per year, the first player's wins, the second player's wins and the ties. The two players are parameters; the script hard-codes two names.
  - The result is specified by sets: the contested puzzles, those the first player won, and ties. Counters become cardinalities of those sets.

Points where the model follows the code rather than its documented intent:

- The attempts group accepts any single digit, not only 1-6. A `0`, `8` or `9` is a win. In head to head, "X" (7) ties with `7` and loses only to digits below 7; it beats `8` and `9` (`HeadToHead.FailureRanks`).
- `\d` and `\w` are ASCII. `\s` and `str.strip` use Python's full whitespace set.
- Python dict iteration order does not affect any result. The model iterates over sets.
- The zero guard in `print_summary` on `total` (line 398) never fires: every bucket has `total >= 1` (`Statistics.StatsCoherent`). The guard on `wins` (line 399) can fire for a player with only failures.
- The division by `total` at line 436 is safe: every year key of the head-to-head map has at least one contested puzzle (`HeadToHead.DuelPartition`).

## Model

| member | source | states |
|---|---|---|
| `Lexical.StripPadded` | wordle_stats.py:34 | `strip()` removes exactly the leading and trailing whitespace around a stripped core |
| `Lexical.StripStripped` | wordle_stats.py:34 | stripping a name that is already stripped leaves it unchanged |
| `Lexical.DecimalRoundTrip` | wordle_stats.py:49 | the decimal value of the base-10 digits of n is n |
| `Lexical.LeadingZeroIgnored` | wordle_stats.py:60 | a leading zero does not change the value of a digit string, as `int("08") == 8` |
| `Names.RemoveViaNoMatch` | wordle_stats.py:35 | a name with no `\s+via\s+@\w+` occurrence anywhere comes through the substitution unchanged |
| `Names.RemoveViaDeletes` | wordle_stats.py:35 | a string that is one whole `via @handle` match is deleted |
| `Names.AnnotationMatchesWhole` | wordle_stats.py:35 | the greedy match at " via @handle" spans the whole annotation |
| `Names.ViaMatchAppend` | wordle_stats.py:35 | appending an annotation after a non-blank character changes no match that starts before it |
| `Names.NoMatchInsideName` | wordle_stats.py:35 | when a name does not end in whitespace and no match starts in it, no match starts inside it either once " via @handle" follows |
| `Names.RemoveViaBeforeAnnotation` | wordle_stats.py:35 | for a name in which no match starts (it may contain the letters "via"), every suffix of the name followed by the annotation normalises to that suffix |
| `Names.ForwardedNameNormalised` | wordle_stats.py:34-35 | a non-empty stripped name in which no match starts, followed by " via @handle", normalises to the name |
| `Names.JaneDoeExample` | wordle_stats.py:34-35 | "Jane Doe via @SomeBot" becomes "Jane Doe" |
| `Names.OliviaDoeExample` | wordle_stats.py:34-35 | "Olivia Doe via @SomeBot" becomes "Olivia Doe": the letters "via" inside a word are kept |
| `Names.PlainNameStripped` | wordle_stats.py:34-35 | a label without any via-annotation normalises to its stripped form |
| `Mentions.MentionAtCharacterised` | wordle_stats.py:46 | a match starts at the beginning of a string exactly when the string begins with `Wordle <[\d,]+> <X or digit>/6`, and the match's groups are those spelled there |
| `Mentions.FindMention` | wordle_stats.py:46 | a found match has a non-empty token of digits and commas and its spelling fits inside the text |
| `Mentions.FindMentionNone` | wordle_stats.py:46-47 | the search finds nothing exactly when no position of the text starts a match |
| `Mentions.FindMentionLeftmost` | wordle_stats.py:46 | the search returns the match at the left-most position where one starts |
| `Mentions.ParsePuzzle` | wordle_stats.py:48-49 | converting the comma-free token fails exactly when the token holds only commas (`int("")` raises) or has more than 4300 digits, and it reports which of the two |
| `Mentions.SeparatorIgnored` | wordle_stats.py:48-49 | a comma anywhere in the puzzle token does not change the puzzle number |
| `Mentions.GroupedPuzzleExample` | wordle_stats.py:45-49 | "1,292" and "1292" both give puzzle 1292 |
| `Mentions.PuzzleRoundTrip` | wordle_stats.py:48-49 | the base-10 digits of n parse back as puzzle n when there are at most 4300 of them, and are rejected as too long otherwise |
| `Mentions.OverlongTokenRejected` | wordle_stats.py:48-49 | a token of 4301 digits is rejected as too long instead of giving a number |
| `Dates.DatePrefixRoundTrip` | wordle_stats.py:57-59 | a title starting with a `DD.MM.YYYY` rendering of a (day, month, year) triple yields that triple, whatever follows |
| `Dates.DatePrefixNeedsShape` | wordle_stats.py:57 | a prefix is found only when the title has two digits, a dot, two digits, a dot and four digits at its start |
| `Dates.DaysInMonth` | wordle_stats.py:60 | months have 31 days exactly for January, March, May, July, August, October and December, 30 exactly for April, June, September and November, 29 exactly for February of a leap year and 28 exactly for February of a common year |
| `Dates.MakeDate` | wordle_stats.py:60 | building the date succeeds exactly for a valid calendar date with year 1 to 9999, and keeps the triple |
| `Dates.YearLength` | wordle_stats.py:60 | a year has 366 days exactly when it is a Gregorian leap year |
| `Dates.ExampleTitle` | wordle_stats.py:56-60 | the title "26.08.2023 08:38:51 UTC+01:00" gives 26 August 2023 |
| `Dates.ImpossibleTitle` | wordle_stats.py:57-60 | "31.02.2023 ..." matches the prefix but `datetime` rejects it |
| `Dates.ImpossibleDates` | wordle_stats.py:60 | 29 February is rejected in 2023 and 1900 and accepted in 2024 and 2000; day 0, month 13 and year 0 are rejected |
| `Extraction.Emit` | wordle_stats.py:46-70 | every emitted record has a non-empty player, a valid date and the date's year as its year (its attempts is X or a digit by type), and its player is the current author |
| `Extraction.EmitCharacterised` | wordle_stats.py:46-68 | a record is emitted exactly when there is a mention, a non-empty current author and a date prefix that parse, and its fields are those parsed values |
| `Extraction.EmitRaises` | wordle_stats.py:47-60 | a message aborts the run exactly when it has a mention and a non-empty author, and either its token is all commas, or its token has more than 4300 digits, or its date prefix is impossible |
| `Extraction.FileRecords` | wordle_stats.py:29-70 | a file yields at most one record per message, and every record is well formed |
| `Extraction.StickyAuthor` | wordle_stats.py:29-40 | after a file's messages, the current author is the normalised label of the last message that had one |
| `Extraction.NoAuthorNoPlayer` | wordle_stats.py:29-35 | without any author label in a file, the current author stays none |
| `Extraction.NoRecordBeforeAuthor` | wordle_stats.py:29-47 | a file whose messages carry no author label yields no record |
| `Extraction.PlayerFromSameFile` | wordle_stats.py:29-64 | every record's player is the normalised label of some message of the same file |
| `Extraction.PlayerNamesALabel` | wordle_stats.py:32-35 | the current author, when there is one, is the normalised label of some message seen in the file |
| `Extraction.AllRecordsSplit` | wordle_stats.py:21-30 | the records of two runs of files are the records of the first followed by those of the second, and an error in the first stops everything |
| `Extraction.FileErrorSticks` | wordle_stats.py:49-60 | once a prefix of a file raises, the file's outcome is that error |
| `Extraction.RunAborts` | wordle_stats.py:21-60 | a raise in any file makes the whole run end with that error |
| `Extraction.ScanMessage` | wordle_stats.py:32-70 | one loop step updates the current author and emits, skips or raises as the per-message rule says |
| `Extraction.ParseHtmlFiles` | wordle_stats.py:17-72 | the loop over files and messages returns exactly the fold `AllRecords` of the files |
| `Statistics.CalculateStatistics` | wordle_stats.py:75-104 | the loop over the results returns exactly the fold `StatsOf` of the records |
| `Statistics.TallyCoherent` | wordle_stats.py:94-102 | one counted result keeps total = wins + losses and histogram sum = wins, and raises total by one |
| `Statistics.AddRecordAt` | wordle_stats.py:94-102 | adding a record creates or updates only that record's (player, year) bucket |
| `Statistics.StatsCoherent` | wordle_stats.py:94-102 | in every bucket, total = wins + losses, the histogram counts sum to wins, it holds only the digits 0-9, and total is at least 1 |
| `Statistics.TallyWeighted` | wordle_stats.py:99-102 | one counted result keeps total attempts equal to the sum of k times the count of k |
| `Statistics.StatsWeighted` | wordle_stats.py:99-102 | in every bucket, total attempts = Σ k · attempts_dist[k] |
| `Statistics.StatsCounts` | wordle_stats.py:89-101 | a bucket exists exactly for keys that have results; its total, losses and histogram entries count that key's results, its X results and its results per digit |
| `Statistics.StatsAttempts` | wordle_stats.py:100-102 | a bucket's total attempts is the sum of the digit values of that key's won results |
| `Statistics.CountsVanish` | wordle_stats.py:89-102 | a key with no results has no losses, no attempts of any kind and no attempt total |
| `Statistics.TallyCommutes` | wordle_stats.py:94-102 | counting two results into a bucket gives the same bucket in either order |
| `Statistics.AddRecordCommutes` | wordle_stats.py:89-102 | adding two records gives the same statistics in either order |
| `Statistics.MoveToEnd` | wordle_stats.py:89-102 | moving one record to the end of the input does not change the statistics |
| `Statistics.StatsOrderIndependent` | wordle_stats.py:89-102 | any permutation of the results gives the same buckets |
| `Statistics.SumTotalsRemove` | wordle_stats.py:94 | the sum of totals over the buckets is any one bucket's total plus the sum over the rest |
| `Statistics.TotalsCoverAllRecords` | wordle_stats.py:89-94 | the totals of all buckets add up to the number of results |
| `HeadToHead.AttemptValue` | wordle_stats.py:118-122 | the comparison value is at most 9, is 7 exactly for "X" and "7", and is a digit's own value otherwise |
| `HeadToHead.FailureRanks` | wordle_stats.py:118-122 | "X" loses to the digits 0-6, ties with 7 and beats 8 and 9 |
| `HeadToHead.BuildPuzzles` | wordle_stats.py:112-124 | the loop over the results returns exactly the fold `PuzzlesOf` of the records |
| `HeadToHead.PlaceElsewhere` | wordle_stats.py:124 | storing a result leaves every other (year, puzzle, player) entry as it was |
| `HeadToHead.LastRecordWins` | wordle_stats.py:124 | the entry for a (year, puzzle, player) is the value of the last record for it |
| `HeadToHead.NoRecordNoEntry` | wordle_stats.py:124 | a (year, puzzle, player) with no record has no entry |
| `HeadToHead.DuelStep` | wordle_stats.py:131-140 | scoring one more puzzle adds it to the contested set when both played and adds one to exactly the right counter |
| `HeadToHead.YearStep` | wordle_stats.py:129 | scoring one more year adds that year's key exactly when it has a contested puzzle, and leaves the other years alone |
| `HeadToHead.UncontestedIsZero` | wordle_stats.py:127-140 | a year without contested puzzles has all three counters at zero |
| `HeadToHead.PuzzleStep` | wordle_stats.py:130-140 | one puzzle of the inner loop changes the map as `ScorePuzzle` does, from the state of the puzzles already scored |
| `HeadToHead.ScorePuzzle` | wordle_stats.py:131-140 | when both players have an entry, exactly one of the year's three counters rises by one (created at zero if missing), chosen by comparing their values; otherwise nothing changes |
| `HeadToHead.TallyYear` | wordle_stats.py:130-140 | the inner loop over one year's puzzles adds that year's duel counts, and the year's key only when some puzzle was contested |
| `HeadToHead.CalculateDuels` | wordle_stats.py:127-142 | the loops over years and puzzles return exactly the set-defined duel counts `DuelsOf` |
| `HeadToHead.CalculateHeadToHead` | wordle_stats.py:107-142 | the whole function is the duel counts of the puzzles built from the records |
| `HeadToHead.DuelPartition` | wordle_stats.py:127-140 | a year key exists exactly when some puzzle of that year is contested, and first wins + second wins + ties equals the number of contested puzzles, which is at least 1 |
| `HeadToHead.DuelSymmetric` | wordle_stats.py:131-140 | swapping the two players swaps their win counts and keeps the ties and the years |
| `HeadToHead.SinglePuzzleDuel` | wordle_stats.py:112-140 | two players on one puzzle give one year entry: a win for the lower value, or a tie |
| `HeadToHead.ThreeBeatsFive` | wordle_stats.py:131-136 | 3 attempts against 5 is a win for the first player |
| `HeadToHead.SixBeatsFailure` | wordle_stats.py:119-138 | "X" against 6 is a win for the second player |

## Left out

- File globbing, sorting of file names, opening and reading files (lines 21-24). The files are a parameter: a sequence of message sequences in processing order.
- BeautifulSoup HTML parsing (lines 24-27, 32, 38, 42, 53-55). Each message is given as its optional author label, optional text and optional title.
- The progress message printed per file (line 22), `plot_statistics` (lines 145-380), `print_summary` (lines 383-411) and the head-to-head report (lines 428-442). These are console and image output with floating-point percentages and averages. Only the integer facts behind their zero guards and divisions are proved.
- The `datetime` object. A record keeps the (year, month, day) triple that `datetime` validates, with years 1 to 9999 of the proleptic Gregorian calendar.
- Unicode digits and word characters in `\d` and `\w`. Only ASCII ones are modelled.
- Python versions without `int()`'s 4300-digit limit. On those, a longer puzzle token converts to a number where the model reports `PuzzleNumberTooLong`.
- Python dict insertion order. The model's maps and sets have no order, and no result of the core depends on it.
- The nested `defaultdict`s of `calculate_statistics` are modelled as one map keyed by (player, year). The per-player inner maps are not separate objects.
