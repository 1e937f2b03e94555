# dnd-tools in Dafny

This project models two tools from a Dungeons & Dragons note repository.

**The fantasy-calendar date engine** (`scripts/fantasy_calendar.py`).
- A calendar has:
  - a table of named months with their day counts;
  - a "before" and an "after" era token;
  - a flag saying whether year 0 exists;
  - today's date.
- Dates are `(year, month, day)` triples with a lexicographic order. Years use astronomical numbering.
- The engine does the following:
  - reads and writes dates in the slash form `D/M/Y [era]`;
  - validates dates and sums the year's length;
  - computes day-of-year, remainders, shifts by a number of days and the distance between two dates;
  - draws random dates;
  - answers the `get-age` and `get-birthday` commands.

The day-arithmetic helpers are modelled as the code computes them, which is not what a calendar would compute. `_day_of_year` counts the date's own month. `_remainder_of_month` reads the *next* month's length. The month loops of `_shifted_date` start from the first (or last) month. Lemmas relate each helper to the intended quantity: `Ordinal` (the date's position in its year) and `DaysLeftInYear`.

**The note checker** (`scripts/dnd_md.py`, with its older variant `scripts/check_markdown.py`).
- A note is a list of lines.
- The checker reads:
  - the hashtags on the last line with words;
  - the `## Characteristics` block of `* Key: value` lines, into an insertion-ordered dictionary.
- It checks:
  - trailing whitespace;
  - the title line;
  - the presence, completeness, order and values of the characteristics.
- Each message goes to a logger as a `(kind, message)` pair.
- The current version also rewrites the block in place. It puts the canonical keys Race, Gender, Birthday and Age first.

Module layout:

| file | module | holds |
|---|---|---|
| `wrappers.dfy` | `Wrappers` | `Option`, `Result` (Python's `None` and its exceptions) |
| `text.dfy` | `Text` | the `str` built-ins used: `isspace`, `strip`, `split()`, `split(sep)`, `partition`, `find`, `lower`, `str(int)`, `int(str)` |
| `fantasy_calendar.dfy` | `FantasyCalendar` | `Date`, `Calendar`, the slash form, the day arithmetic, random dates, the two commands |
| `logging.dfy` | `Logging` | the `Logger` class: its entries, the "fresh" flag and the printed lines |
| `characs.dfy` | `Characs` | the ordered dictionary, `c[k] = v`, the canonical reordering, block lines |
| `notes.dfy` | `Notes` | the rules both checker versions share. Each rule is a specification function of the lines, plus a method that applies it through a `Logger`. |
| `dnd_md.dfy` | `DndMarkdown` | `DNDMarkdown`: the block reader with blank-line skipping, the setter, the note class |
| `check_markdown.dfy` | `CheckMarkdown` | `DNDMarkDown`: the older block reader, the note class, how the two versions compare |

Python exceptions become `Err` values, with one constructor per kind of exception. `Err(NoDate)` is not an exception: it stands for the None that `_shifted_date` returns when a month loop runs out. The random number generator becomes a `draw` parameter. The module-global `path` that the older checker's title check reads becomes a `stem` parameter.

## Model

| member | source | states |
|---|---|---|
| FantasyCalendar.NewDate | scripts/fantasy_calendar.py:15-17 | A date is built exactly when month and day are at least 1. Otherwise it fails with the month error first, then the day error. |
| FantasyCalendar.DateOrder | scripts/fantasy_calendar.py:25-44 | `<` is irreflexive and transitive. Exactly one of `<`, `==`, `>` holds. `>` is the converse of `<`, and `>=` the converse of `<=`. |
| FantasyCalendar.OrderFixtures | tests/test_calendar.py:18-26 | Every early/late pair of the test suite compares as the tests expect with `<`, `<=`, `>` and `>=`. |
| FantasyCalendar.MonthAt | scripts/fantasy_calendar.py:104 | Indexing the month table succeeds exactly for `-len <= i < len`. A non-negative index gives that month. |
| FantasyCalendar.SliceBound | scripts/fantasy_calendar.py:97 | A slice bound lands inside the table and is the index itself when it is in range. |
| FantasyCalendar.DaySumSplit | scripts/fantasy_calendar.py:111 | Splitting the month table splits its day count. |
| FantasyCalendar.VerifyDateFixtures | tests/test_calendar.py:6-16 | `verify_date` accepts every date of the test fixture on the fixture's table, years 0 and -1 included. It rejects a day beyond its month and a month beyond the table. |
| FantasyCalendar.NumDaysOfYear | scripts/fantasy_calendar.py:92-94 | The year has at least one day per month when every month has one. |
| FantasyCalendar.NumDaysAtLeastCount | scripts/fantasy_calendar.py:94 | The sum of lengths that are each at least 1 is at least the number of months. |
| FantasyCalendar.DayOfYearCountsOwnMonth | scripts/fantasy_calendar.py:96-97 | `_day_of_year` of a valid date is its true ordinal plus the length of its own month. |
| FantasyCalendar.UncheckedRemainderOfMonth | scripts/fantasy_calendar.py:103-104 | For a valid date, `_remainder_of_month` raises exactly on the last month. |
| FantasyCalendar.RemainderOfMonthReadsNextMonth | scripts/fantasy_calendar.py:103-104 | Short of the last month, it is the true remainder of the month shifted by (next month's length − own length). |
| FantasyCalendar.UncheckedRemainderOfYear | scripts/fantasy_calendar.py:110-111 | `_remainder_of_year` raises exactly when `_remainder_of_month` does. |
| FantasyCalendar.RemainderOfYearAgainstDaysLeft | scripts/fantasy_calendar.py:110-111 | Short of the last month, it is the true number of days left in the year, shifted by (next month's length − own length). |
| FantasyCalendar.DayOfYear | scripts/fantasy_calendar.py:99-101 | Succeeds exactly on valid dates, with the ordinal plus the own month's length. |
| FantasyCalendar.RemainderOfMonth | scripts/fantasy_calendar.py:106-108 | Succeeds exactly on valid dates outside the last month. The value is the next month's length minus the day, which is the true remainder of the month shifted by (next month's length − own length). |
| FantasyCalendar.RemainderOfYear | scripts/fantasy_calendar.py:113-115 | Succeeds exactly on valid dates outside the last month, with the days-left value shifted as above. |
| FantasyCalendar.EraOf | scripts/fantasy_calendar.py:81-82 | Without year 0, year `y <= 0` prints as `1 - y` with the before token, and `y >= 1` as `y` with the after token, so 0 is never printed. With year 0, negative years print as `-y` before and the others as `y` after. |
| FantasyCalendar.YearFromWords | scripts/fantasy_calendar.py:64-72 | A year field without words fails. A second word that is neither token raises "not recognized". A lone word that is not an integer raises ValueError. |
| FantasyCalendar.EraRoundTrip | scripts/fantasy_calendar.py:68 | Reading back the number and token that rendering prints gives the year, so "n before" reads as `-n + 1` without year 0. |
| FantasyCalendar.DateFromString | scripts/fantasy_calendar.py:61-77 | Every date returned passes `verify_date`. Text without exactly three `/` fields fails with the unpacking error. A `DateError` carries a date that fails `verify_date`. The four lemmas below give the other failure cases, in evaluation order: the year field, then the month and day fields, then `verify_date`. |
| FantasyCalendar.StringFromDate | scripts/fantasy_calendar.py:79-84 | Succeeds exactly on valid dates. |
| FantasyCalendar.ReadFields | scripts/fantasy_calendar.py:61-77 | Three `/`-free fields whose parts parse to a valid date are read as that date. |
| FantasyCalendar.ReadFieldsBadYear | scripts/fantasy_calendar.py:64-72 | With three `/`-free fields, a year field that cannot be read makes the whole parse fail with that error, whatever the month and day fields hold. |
| FantasyCalendar.ReadFieldsUnknownEra | scripts/fantasy_calendar.py:71-72 | A year field "n token" whose token is neither the before nor the after token makes the parse raise "not recognized" for that token. |
| FantasyCalendar.ReadFieldsBadMonthDay | scripts/fantasy_calendar.py:74 | Once the year is read, a month field that is not an integer fails first. Then a day field that is not an integer fails. Then a month below 1 raises the constructor's month error, and only then does a day below 1 raise the day error. |
| FantasyCalendar.ReadFieldsInvalidDate | scripts/fantasy_calendar.py:74-75 | Fields that read as a date with positive month and day that fails `verify_date` make the parse raise `DateError` with exactly that date. |
| FantasyCalendar.StringRoundTrip | scripts/fantasy_calendar.py:61-84 | For distinct, non-empty, space-free and `/`-free tokens, parsing the rendering of a valid date gives the date back. |
| FantasyCalendar.LiteralYear | scripts/fantasy_calendar.py:65-66 | A year field without an era token is taken literally as the astronomical year, negative years included. |
| FantasyCalendar.NewCalendar | scripts/fantasy_calendar.py:54-59 | The calendar keeps the months, tokens and year-0 flag as given. Construction fails exactly when `date_from_string(today)` fails, with the same error. Otherwise `today` is the date that text parses to, and it passes `verify_date`. |
| FantasyCalendar.DivMod | scripts/fantasy_calendar.py:123 | Python's `divmod`: `a == q*b + r`, with `r` carrying the sign of `b`. |
| FantasyCalendar.WalkForwardLoop | scripts/fantasy_calendar.py:133-139 | The forward `for month` loop returns the date the forward walk lands on, or none when it runs off the table. |
| FantasyCalendar.WalkBackwardLoop | scripts/fantasy_calendar.py:151-157 | The same for the backward loop over the reversed table. |
| FantasyCalendar.ShiftedDate | scripts/fantasy_calendar.py:117-157 | `_shifted_date` computes the year/remainder/walk composition. A shift of 0 returns the date unchanged. |
| FantasyCalendar.WalkForwardStops | scripts/fantasy_calendar.py:133-139 | The forward walk never runs off the table while fewer days remain than the table holds. |
| FantasyCalendar.WalkForwardFrom | scripts/fantasy_calendar.py:133-139 | From the first day of month i+1 it lands on a valid later month, `days + 1` days into the run of months from i. |
| FantasyCalendar.WalkForwardFromNewYear | scripts/fantasy_calendar.py:133-139 | From New Year it lands on the valid date whose ordinal is `days + 1`. |
| FantasyCalendar.UncheckedDaysBetween | scripts/fantasy_calendar.py:164-182 | Equal dates are 0 days apart. Within one month the count is `b.day - a.day`. |
| FantasyCalendar.DaysBetweenAntisymmetric | scripts/fantasy_calendar.py:164-182 | Exchanging the dates negates the count, or raises the same exception. |
| FantasyCalendar.DaysBetween | scripts/fantasy_calendar.py:184-187 | Validates the first date, then the second, before counting. |
| FantasyCalendar.PublicShiftedDate | scripts/fantasy_calendar.py:160-162 | Always fails: with `DateError` on an invalid date, and otherwise because `_add_days` does not exist. |
| FantasyCalendar.RandInt | scripts/fantasy_calendar.py:196 | `randint(lo, hi)` succeeds exactly when `lo <= hi`, with a value in `[lo, hi]`. |
| FantasyCalendar.UncheckedRandomDate | scripts/fantasy_calendar.py:189-197 | Equal bounds give a copy of the start. A start after the stop raises. |
| FantasyCalendar.RandomDate | scripts/fantasy_calendar.py:199-215 | An invalid start given explicitly raises `DateError`. |
| FantasyCalendar.NewYearRemainder | scripts/fantasy_calendar.py:126 | The `_remainder_of_year` of New Year is non-negative on a well-formed table. |
| FantasyCalendar.RandomDateWithoutBounds | scripts/fantasy_calendar.py:200-202 | Without bounds the result is a valid date in today's year or the next. When the shift is at most the New-Year remainder, it is in today's year with ordinal `shift + 1`. |
| FantasyCalendar.AgeOn | scripts/fantasy_calendar.py:228-236 | "Not yet born" exactly when the birth year is after today's. Otherwise the age n has its n-th anniversary at or before today and the next one after today. |
| FantasyCalendar.AgeOnReportsMinusOne | scripts/fantasy_calendar.py:230-235 | A birthday later in the current year gets age -1. |
| FantasyCalendar.AgeOnIntended | scripts/fantasy_calendar.py:228-236 | "Not yet born" exactly when the birthday is after today. Otherwise the age is non-negative and bracketed by anniversaries. |
| FantasyCalendar.GetAge | scripts/fantasy_calendar.py:228-236 | `get-age` fails exactly when the birthday text does not parse. Otherwise it reports the rule `AgeOn` for the parsed birthday: "Not yet born" exactly when the birth year is after today's, else the age whose anniversary is at or before today and whose next anniversary is after it. |
| FantasyCalendar.GetBirthday | scripts/fantasy_calendar.py:242-245 | `get-birthday` prints only when the random date was drawn. |
| FantasyCalendar.AgeOfShiftedBirthday | scripts/fantasy_calendar.py:244 | A date of today's year moved back `age` years (one more when it is after today) is `age` years old under both age rules. |
| FantasyCalendar.BirthdayHasRequestedAge | scripts/fantasy_calendar.py:241-245 | A birthday printed by `get-birthday`, read back by `get-age`, has the requested age when the draw falls in today's year. |
| Text.Strip | scripts/dnd_md.py:113 | `strip()` is empty exactly on blank text, has no whitespace at its ends, and leaves space-free text alone. |
| Text.StripPadded | scripts/dnd_md.py:128-129 | Stripping removes exactly the blank padding around an unpadded value. |
| Text.Words | scripts/fantasy_calendar.py:64 | `split()` yields non-empty words without whitespace, and none exactly for blank text. |
| Text.WordsOfTwo | scripts/fantasy_calendar.py:64 | Two words joined by a space split back into those two words. |
| Text.IndexOf | scripts/dnd_md.py:103 | `find` gives -1 exactly when the character is absent, and otherwise its first position. |
| Text.SplitOn | scripts/fantasy_calendar.py:62 | `split(sep)` gives separator-free parts that join back into the text. |
| Text.SplitThree | scripts/fantasy_calendar.py:62 | Three separator-free fields joined by the separator split back into them. |
| Text.Partition | scripts/dnd_md.py:124 | `partition` finds the separator exactly when present, and splits at its first occurrence. Otherwise it returns the whole text. |
| Text.PartitionAt | scripts/dnd_md.py:124 | A separator-free head is split off at the separator that follows it. |
| Text.Lower | scripts/dnd_md.py:104 | `lower()` maps each character and keeps the length. |
| Text.NatToString | scripts/fantasy_calendar.py:84 | `str(n)` of a natural number is a non-empty run of digits. |
| Text.ParseIntOfNat | scripts/fantasy_calendar.py:74 | `int(str(n)) == n` for natural n. |
| Text.ParseIntOfString | scripts/fantasy_calendar.py:66 | `int(str(n)) == n` for every integer n. |
| Text.IntToStringInjective | scripts/dnd_md.py:145 | Different integers print differently. |
| Logging.PrintedShape | scripts/dnd_md.py:19-25 | The title is printed once, before the first message. Then one line per message follows, in order. |
| Logging.Logger.constructor | scripts/dnd_md.py:11-14 | A new logger is fresh and has logged nothing. |
| Logging.Logger.Log | scripts/dnd_md.py:19-25 | `log` appends the entry. It prints the title first only while the logger is fresh, then the message line. |
| Notes.LastWithWords | scripts/dnd_md.py:85-87 | The last line with a word, or -1 when there is none. |
| Notes.TagsOf | scripts/dnd_md.py:79-92 | No tag list exactly when every line is blank. One "No tags found" warning exactly when the list is empty. |
| Notes.TagsSkipBlankLines | scripts/dnd_md.py:85-87 | Blank lines at the end do not change the tags. |
| Notes.TagsOnlyLastLine | scripts/dnd_md.py:85-92 | Only the last line with a word is read. |
| Notes.TagLineReads | scripts/dnd_md.py:88-89 | "#a #b" gives tags a and b, with the `#` removed. |
| Notes.NonTagLineWarns | scripts/dnd_md.py:90-92 | A last line with a non-tag word gives `[]` and one warning. |
| Notes.ReadTags | scripts/dnd_md.py:79-92 | The reverse scan returns `TagsOf` and logs its messages. |
| Notes.HeadingTextAfterLevel | scripts/dnd_md.py:103 | The heading text of a `## ` line is what follows the level. |
| Notes.HeadingCleanOfTarget | scripts/dnd_md.py:104-108 | "## Characteristics" logs no heading error. |
| Notes.HeadingTargetOfClean | scripts/dnd_md.py:104-108 | A heading that logs no error is exactly "## Characteristics". |
| Notes.CleanHeadingMatches | scripts/dnd_md.py:102-104 | A heading that logs nothing is a characteristics heading. |
| Notes.LowerCharacteristics | scripts/dnd_md.py:104 | "Characteristics" lower-cases to the text compared against. |
| Notes.CleanHeadingFound | scripts/dnd_md.py:101-109 | "## Characteristics" after lines without a heading is the first heading. |
| Notes.FirstHeading | scripts/dnd_md.py:101-111 | The first characteristics heading: every earlier line is not one. No line is one when none is found. |
| Notes.FirstHeadingAt | scripts/dnd_md.py:101-109 | A characteristics heading with none before it is the one the loop stops at. |
| Notes.LogHeading | scripts/dnd_md.py:105-108 | Logs the wrong-case error, then the wrong-level error. |
| Notes.FindHeading | scripts/dnd_md.py:101-111 | The heading loop returns the first heading and logs only its errors. |
| Notes.FirstHeadingPrefix | scripts/dnd_md.py:101-109 | A heading found in a prefix is the note's first heading. |
| Notes.ParseFromLog | scripts/dnd_md.py:121-135 | Reading a block after an earlier log only puts that log in front. |
| Notes.ParseLinesDistinct | scripts/dnd_md.py:122-133 | The block read is a dictionary: no key twice. |
| Notes.ParsedValueIsLast | scripts/dnd_md.py:131-133 | Each key holds the value of its last `* key:` line: a repeated key overwrites. |
| Notes.DuplicatesCounted | scripts/dnd_md.py:130-133 | Each keyed line either adds a key or logs one duplicate error. Every message is an error. |
| Notes.KeyedCountBound | scripts/dnd_md.py:123 | No more keyed lines than lines. |
| Notes.StepNewKey | scripts/dnd_md.py:130-133 | A line with a new key appends its entry and logs nothing. |
| Notes.RenderReadsSnoc | scripts/dnd_md.py:63-64 | One more written entry with a new key still reads back. |
| Notes.RenderReads | scripts/dnd_md.py:63-64 | The lines the setter writes read back as the dictionary, without messages. |
| Notes.BlockLen | scripts/dnd_md.py:123-126 | The block's length stays within the note. |
| Notes.BlockLenShape | scripts/dnd_md.py:123-126 | Every block line has a `:`, and the line after the block has none. |
| Notes.BlockLenIs | scripts/dnd_md.py:123-126 | Any run of `:`-lines ended by a line without one is the block. |
| Notes.BlockAtShape | scripts/dnd_md.py:121-133 | The dictionary read is one, with no more entries than block lines. |
| Notes.RenderedBlockReads | scripts/dnd_md.py:121-135 | Written lines followed by a line without `:` read back as written. |
| Notes.ReadBlock | scripts/dnd_md.py:121-135 | The block loop returns the block's dictionary and logs its duplicate errors. |
| Notes.ReadBlockLines | scripts/dnd_md.py:123-133 | The loop stops at the block's end, having read exactly the block's lines. |
| Notes.BlockRead | scripts/dnd_md.py:123-135 | What the loop built is the block read from its start. |
| Notes.ReadLine | scripts/dnd_md.py:123-133 | One loop iteration reads one more line. |
| Notes.ReadEntry | scripts/dnd_md.py:124-133 | One line: partition, the `* ` check, strip, then store with the duplicate check. |
| Notes.Store | scripts/dnd_md.py:131-133 | `characs[key] = val`, after one error when the key is already there. |
| Notes.LastNonEmpty | scripts/dnd_md.py:140-143 | The last non-empty line, or -1. |
| Notes.LastNonEmptyIs | scripts/dnd_md.py:140-143 | Characterises that index. |
| Notes.TrailingMessageInjective | scripts/dnd_md.py:145 | Different line numbers give different messages. |
| Notes.TrailingWarnsExactly | scripts/dnd_md.py:137-145 | A warning names line j+1 exactly when line j ends in a space and is not the skipped tag line. |
| Notes.TrailingOnlyWarns | scripts/dnd_md.py:144-145 | The trailing-whitespace messages are all warnings. |
| Notes.CheckTrailing | scripts/dnd_md.py:137-145 | The reverse scan logs exactly `TrailingLog`, passing over the last non-empty line when there are tags. |
| Notes.TitleLog | scripts/dnd_md.py:147-158 | At most one error, and none exactly when the line is `# ` + stem. Every message is an error. |
| Notes.CheckTitle | scripts/dnd_md.py:147-158 | Logs `TitleLog` for the first line. |
| Notes.MissingLogNames | scripts/dnd_md.py:171-175 | "k missing" is logged exactly for the canonical keys absent. None is logged exactly when all are there. |
| Notes.NoValueLogNames | scripts/dnd_md.py:180-182 | "k has no value" is logged exactly for the entries with an empty value. |
| Notes.ShuffledIffOutOfOrder | scripts/dnd_md.py:177-179 | With no key missing, "shuffled" is logged exactly when the first four keys are not Race, Gender, Birthday, Age. |
| Notes.FourKeys | scripts/dnd_md.py:172-178 | All four canonical keys present means four entries at least, so `zip` compares all four. |
| Notes.CheckCharacteristics | scripts/dnd_md.py:160-182 | Logs the presence warnings, the missing errors, and (when none is missing) the order error and the empty-value warnings. |
| Notes.LogPresence | scripts/dnd_md.py:162-166 | Logs the person-tag/block mismatch warnings. |
| Notes.LogMissing | scripts/dnd_md.py:171-175 | Logs one error per missing key and reports whether any was missing. |
| Notes.LogIfMissing | scripts/dnd_md.py:173-175 | Logs the error for one missing key. |
| Notes.LogNoValues | scripts/dnd_md.py:180-182 | Logs one warning per empty value, in dictionary order. |
| Notes.IntegrityLog | scripts/dnd_md.py:184-192 | An empty note logs only "File is empty". |
| Notes.CheckIntegrity | scripts/dnd_md.py:184-192 | Logs `IntegrityLog`. It raises exactly when a non-empty note has no tag line. |
| Characs.Get | scripts/dnd_md.py:56-57 | Finds a value exactly when the key is present, and that value is stored under the key. |
| Characs.GetAt | scripts/dnd_md.py:56-57 | In a dictionary, the value at a position is the one its key reads. |
| Characs.PutShape | scripts/dnd_md.py:133 | Storing keeps the key order. A new key is appended. Other entries are unchanged. |
| Characs.PutOverwrites | scripts/dnd_md.py:131-133 | A present key takes the new value in place. |
| Characs.PutLookup | scripts/dnd_md.py:133 | Storing keeps the keys distinct and makes k read v, leaving every other key alone. |
| Characs.PutNewKey | scripts/dnd_md.py:133 | The same, for a new key. |
| Characs.PutPresentKey | scripts/dnd_md.py:133 | The same, for a present key. |
| Characs.CanonicalPartShape | scripts/dnd_md.py:55-57 | The first loop keeps only canonical keys the input holds, with their values, and covers all of them. |
| Characs.OtherPartShape | scripts/dnd_md.py:59-61 | The second loop adds exactly the non-canonical entries, without repeats. |
| Characs.OtherPartEntries | scripts/dnd_md.py:59-61 | Those entries are non-canonical entries of the input. |
| Characs.OtherPartCovers | scripts/dnd_md.py:59-61 | Every non-canonical key of the input is among them. |
| Characs.OtherPartDistinct | scripts/dnd_md.py:59-61 | They have distinct keys. |
| Characs.ReorderedDistinct | scripts/dnd_md.py:54-61 | The rebuilt dictionary has distinct keys. |
| Characs.DistinctConcat | scripts/dnd_md.py:54-61 | Canonical and non-canonical parts join into one dictionary. |
| Characs.ReorderedLookup | scripts/dnd_md.py:54-61 | Every key reads in the rebuilt dictionary the value it had. |
| Characs.ReorderedLookupCanonical | scripts/dnd_md.py:55-57 | The same, for the canonical keys. |
| Characs.ReorderedLookupOther | scripts/dnd_md.py:59-61 | The same, for the other keys. |
| Characs.ReorderedLookupAbsent | scripts/dnd_md.py:54-61 | An absent key stays absent. |
| Characs.ReorderedSameEntries | scripts/dnd_md.py:54-61 | The rebuilt dictionary is a reordering: the same entries, with the canonical keys first. |
| Characs.ReorderedCanonical | scripts/dnd_md.py:54-61 | A dictionary already in canonical order is left as it is. |
| Characs.Render | scripts/dnd_md.py:63-64 | One `* key: value` line per entry, in order. |
| Characs.RenderLineReads | scripts/dnd_md.py:124-129 | A written line reads back as its entry. |
| DndMarkdown.FirstNonBlankFrom | scripts/dnd_md.py:116-119 | The first non-blank line from i on, or the last line. |
| DndMarkdown.NoHeadingNoBlock | scripts/dnd_md.py:101-111 | Without a heading: `({}, None)` and no messages. |
| DndMarkdown.BlockStartsAfterBlankLines | scripts/dnd_md.py:116-135 | The start is the first non-blank line after the heading. The dictionary fits in the lines from there. |
| DndMarkdown.HeadingOnLastLineFails | scripts/dnd_md.py:113 | Reading raises exactly when the heading is the last line, after logging its errors. |
| DndMarkdown.CleanNoteReads | scripts/dnd_md.py:94-135 | A clean heading, a blank line and written lines read back as the dictionary, without messages. |
| DndMarkdown.CleanHeadingReads | scripts/dnd_md.py:101-135 | After a clean heading and one blank line, the block starts on the next line. |
| DndMarkdown.ReadCharacteristics | scripts/dnd_md.py:94-135 | `_get_characteristics` returns and logs `ReadResult`. |
| DndMarkdown.Reorder | scripts/dnd_md.py:54-61 | The two loops build the canonical reordering. |
| DndMarkdown.CanonicalEntries | scripts/dnd_md.py:55-57 | The first loop builds the canonical part. |
| DndMarkdown.AppendOtherEntries | scripts/dnd_md.py:59-61 | The second loop appends the other entries. |
| DndMarkdown.OtherPartStep | scripts/dnd_md.py:59-61 | A key is already there exactly when it is canonical. |
| DndMarkdown.ReorderedFromInput | scripts/dnd_md.py:54-61 | The rebuilt entries come from the input, and there is one at least when the input has any. |
| DndMarkdown.RewrittenReads | scripts/dnd_md.py:46-64 | On a block of one line per entry, the rewritten note reads the rebuilt dictionary from the same start, without duplicate errors. |
| DndMarkdown.WholeBlockRewriteReads | scripts/dnd_md.py:46-64 | Replacing the whole block keeps every note with a block readable, as the rebuilt dictionary. |
| DndMarkdown.StaleDuplicateSurvives | scripts/dnd_md.py:51-52 | With a repeated key, a stale line survives the setter. The note then reads the stale value, not the one set. |
| DndMarkdown.StaleRewrite | scripts/dnd_md.py:51-64 | The lines after popping one line of a two-line block and inserting one entry. |
| DndMarkdown.TwoLineBlock | scripts/dnd_md.py:121-133 | Two lines with one key read as the second value, with one duplicate error. |
| DndMarkdown.ParseTwo | scripts/dnd_md.py:130-133 | Reading two lines with the same key. |
| DndMarkdown.ReorderedSingle | scripts/dnd_md.py:54-61 | One entry is already in canonical order. |
| DndMarkdown.RewrittenBlockReads | scripts/dnd_md.py:63-64 | The inserted lines read back as the rebuilt dictionary when the old block spanned the popped lines. |
| DndMarkdown.SplicedStart | scripts/dnd_md.py:113-119 | Rewriting keeps the heading, the line after it and the start. |
| DndMarkdown.FirstHeadingKept | scripts/dnd_md.py:101-109 | Lines agreeing up to the heading have the same first heading. |
| DndMarkdown.Document.constructor | scripts/dnd_md.py:31-40 | Stores the note's fields. |
| DndMarkdown.Document.Open | scripts/dnd_md.py:31-40 | Reads the tags, then the block, and logs their messages in that order. Fails exactly when reading the block raises. |
| DndMarkdown.Document.Characteristics | scripts/dnd_md.py:42-44 | The getter returns the dictionary as a value. |
| DndMarkdown.Document.SetCharacteristics | scripts/dnd_md.py:46-64 | Raises exactly on a note without a block. Otherwise it stores the rebuilt dictionary and splices its lines in place of `len(dict)` lines. |
| DndMarkdown.Document.RemoveLines | scripts/dnd_md.py:51-52 | The pops remove n lines at the start. |
| DndMarkdown.Document.InsertBlock | scripts/dnd_md.py:63-64 | The inserts put the written lines at the start. |
| DndMarkdown.Document.CheckIntegrity | scripts/dnd_md.py:184-192 | `check_integrity` on the note's current lines, tags and block: those read at opening, or the rebuilt lines and dictionary after a `SetCharacteristics`. It fails exactly when a non-empty note has no tag line. |
| CheckMarkdown.BlockStart | scripts/check_markdown.py:71-76 | The block starts after the heading. |
| CheckMarkdown.ReadShape | scripts/check_markdown.py:58-88 | Reading raises exactly when the heading is the last line. The dictionary read is one. |
| CheckMarkdown.BlankHasNoColon | scripts/check_markdown.py:77-79 | A blank line ends the block. |
| CheckMarkdown.SecondBlankLineEmptiesBlock | scripts/check_markdown.py:71-79 | Two blank lines after the heading give an empty dictionary and only the heading's messages. |
| CheckMarkdown.BlankLineEmptiesBlock | scripts/check_markdown.py:76-79 | A block starting on a blank line is empty. |
| CheckMarkdown.VersionsAgree | scripts/check_markdown.py:71-88 | For the same heading, both versions fail together, read the same block and log the same messages, unless two blank lines follow the heading. This covers a heading on the last line, and a heading followed by one blank line that ends the note. |
| CheckMarkdown.VersionsDiverge | scripts/check_markdown.py:71-76 | With two blank lines then a non-blank one, this version reads `{}` while the current one reads the block below. |
| CheckMarkdown.ReadCharacteristics | scripts/check_markdown.py:58-88 | `_get_characteristics` returns and logs `ReadResult`. |
| CheckMarkdown.ReadFromHeading | scripts/check_markdown.py:71-88 | After the heading: the line-break error, `line_idx -= 1`, then the block from `line_idx + 2`. |
| CheckMarkdown.Document.constructor | scripts/check_markdown.py:33-40 | Stores the note's fields. |
| CheckMarkdown.Document.Open | scripts/check_markdown.py:33-40 | Reads the tags, then the block. Fails exactly when reading the block raises. |
| CheckMarkdown.Document.CheckIntegrity | scripts/check_markdown.py:144-154 | `check_integrity`, with the title compared against the given stem. |

## Left out

- `load_calendar` and the argparse wiring of `fantasy_calendar.py` are not modelled. They are JSON and command-line input. Only the two commands' rules are kept, as `GetAge` and `GetBirthday`.
- The printing of the commands is not modelled. `GetAge` returns the age (or "Not yet born") and `GetBirthday` returns the text that would be printed.
- `randint` is not modelled. The generator's output is the `draw` parameter, and `RandInt` maps it into the range.
- The calendar fixture in the test suite uses a `today` text without `/`. `date_from_string` rejects it, so no calendar-level test case is used here.
- File reading in both note constructors and `update_file` are not modelled, because they are disk I/O. A note is opened on its lines.
- `check_markdown.py`'s `__main__` directory scan is not modelled. The global `path` it sets becomes the `stem` parameter.
- Logger colours, TTY detection and `sty` styles are not modelled. `Printed` records the uncoloured lines.
- `DndMarkdown.Document.Open`: the optional logger of `DNDMarkdown` is always present here. With `logger=None` the source logs nothing, which this model does not cover.
- `scripts/update_age.py` is not part of this model. It is argv and file glue around the setter.
- `Text.Lower` lower-cases ASCII letters only. It matches Python on the single comparison the checker makes, against "characteristics", but not on text with other cased letters.
- `Text.ParseInt` accepts ASCII digits only. Python's `int` also accepts other Unicode decimal digits.
- `FantasyCalendar.RandomDate`: its own contract states only the error path. What a bounded draw returns is given by `UncheckedRandomDate` and `UncheckedShiftedDate`. Only the unbounded draw is proved to land on a valid date, in `RandomDateWithoutBounds`.
- `FantasyCalendar.ShiftedDate` is proved equal to its specification function. No calendar meaning is proved for the shift beyond the first year, because the source's month walk does not compute a calendar shift.
- `FantasyCalendar.GetBirthday`: `BirthdayHasRequestedAge` covers only draws that stay in today's year. A draw can run into the next year's first days, because the New-Year remainder reads the second month's length. The birthday then gets today's year minus `age`. If today is earlier in the year than the drawn day, `get-age` reads back `age - 1`. The model proves nothing for that case.
- `DndMarkdown.RewrittenReads` covers only blocks with one line per entry. `StaleDuplicateSurvives` covers the others.

## Findings

| source | as written | input that shows it | evidently intended | confidence | as-written member | corrected member |
|---|---|---|---|---|---|---|
| scripts/fantasy_calendar.py:230-235 | "Not yet born" only when the birth year is after today's year; a birthday later in the current year has the year difference 0 minus 1 | today 12/4/17, birthday 1/7/17: the age printed is -1 | "Not yet born" for every birthday after today | not executed | FantasyCalendar.AgeOnReportsMinusOne | FantasyCalendar.AgeOnIntended |
| scripts/dnd_md.py:51-52 | the setter pops as many lines as the dictionary has entries, not as many as the block has lines | block `* Race: Elf`, `* Race: Human` (one entry, two lines), then setting `{"Race": "Dwarf"}`: the note becomes `* Race: Dwarf`, `* Race: Human` and reads back Race = Human | remove every line of the block before inserting the rebuilt one | not executed | DndMarkdown.StaleDuplicateSurvives | DndMarkdown.WholeBlockRewriteReads |
