# Primary-source flag extractors, modelled in Dafny

`task-1.py` collects five facts from primary sources and joins them into a
flag token `FLAG{a-b-c-d-e}`:

- the Voyager 1 launch date (`launch_date`);
- the publication date of RFC 1149 (`rfc1149_date`);
- the code point of the brain emoji (`brain_codepoint`);
- the UTC date of the Bitcoin genesis block (`btc_date`);
- the ISBN-10 of the second edition of *The C Programming Language* (`kr2_isbn10`).

Every date goes through `convert_to_yyyymmdd`. That function strips the
text, removes abbreviation dots, rewrites `Sept` as `Sep`, tries seven
`strptime` formats in order, and writes the first success as `YYYYMMDD`.

This project models that core as Dafny functions of the content each HTTP
request would have delivered:

- `Text`: ASCII character classes, `str.strip`, `lower`/`upper`, `split(...)[0]`, and decimal numbers.
- `Outcome`: `Option` and `Result`. `ValueError` and `RuntimeError` are modelled as `Err` values.
- `Calendar`: Gregorian dates, `strftime("%Y%m%d")`, and the UTC date of a Unix timestamp.
- `DateNormaliser`: `convert_to_yyyymmdd`, with the preprocessing steps and a small interpreter for the seven `strptime` formats. The method `ConvertToYyyymmdd` is the loop as the source writes it.
- `DateSpellings`: how each format writes a date. It proves that the normaliser reads every such spelling back as the same date, refuses a day the month lacks, and refuses a month-first date without its comma.
- `DateVariants`: the untidy spellings the preprocessing is there for.
- `DateExamples`: the concrete dates of the unit tests.
- `Patterns`: the four regular expressions as greedy matchers, and `re.search` as the leftmost match.
- `PatternShapes`: what each pattern allows, as cuts of the text into its pieces, and proofs that the matchers and the search return exactly those groups.
- `MatchContext`: a match keeps its group when text is added around it.
- `FirstMatch`: the first-match scan the loops share.
- `Extractors`: the five extractors. The two loops are also written as methods and proved equal to their functions.
- `ExtractorExamples`: the extractors on concrete texts like the pages the unit tests expect.
- `Flag`: `assemble_flag` up to the hash. It proves that the token splits back into the five answers.

## Model

| member | source | states |
|---|---|---|
| Calendar.DaysInMonth | task-1.py:29 | a month has 28 to 31 days; it has 29 exactly in February of a leap year |
| Calendar.Render | task-1.py:30 | `%Y%m%d` of a valid date is 8 digits that read back as that date |
| Calendar.RenderIsCanonical | task-1.py:30 | a rendering is a canonical `YYYYMMDD` fact |
| Calendar.ReadRender | task-1.py:30 | every canonical 8-digit date is the rendering of the date it denotes |
| Calendar.RenderInjective | task-1.py:30 | two valid dates with the same rendering are the same date |
| Calendar.DaysBeforeNextYear | task-1.py:83 | the day count before year y+1 is the count before y plus the days of y |
| Calendar.DaysBeforeMonthsOfYear | task-1.py:83 | the twelve months make up exactly the days of the year |
| Calendar.CivilFromDays | task-1.py:83 | the civil date of a day number is valid, and its day number is the input |
| Calendar.CivilFromDaysOfCivil | task-1.py:83 | from 1970 on, day numbers and civil dates correspond one to one |
| Calendar.UtcDate | task-1.py:83 | the UTC date of a 10-digit timestamp is valid, lies in 1970..2286, and is day ts div 86400 |
| Calendar.CivilYearBound | task-1.py:83 | every day number of a 10-digit timestamp falls in a year up to 2286 |
| Text.Strip | task-1.py:20 | `str.strip()`: a slice with only whitespace cut off, and no whitespace at either end |
| Text.StripUnchanged | task-1.py:20 | text with no whitespace at its ends is left as it is |
| Text.StripSurrounded | task-1.py:20 | stripping removes exactly the whitespace around a text |
| Text.BeforeFirst | task-1.py:69 | `split(sep)[0]`: the longest prefix without `sep` |
| Text.Lower | task-1.py:67 | ASCII `lower()`, character by character |
| Text.Upper | task-1.py:71 | ASCII `upper()`, character by character |
| Text.Number | task-1.py:82 | `int()` of a digit string is below 10 to the power of its length |
| Text.Pad | task-1.py:30 | `%02d`/`%04d`: exactly `width` digits |
| Text.NumberPad | task-1.py:30 | a number below 10 to the power of the width reads back from its padded digits |
| Text.PadNumber | task-1.py:84 | writing a number back at the width it was read from gives the digits back |
| DateNormaliser.DropDotsFrom | task-1.py:21 | dot removal never lengthens the text |
| DateNormaliser.DropDotsNone | task-1.py:21 | dot removal changes nothing when no dot is followed by whitespace or the end |
| DateNormaliser.DropDotsOnlyDots | task-1.py:21 | dot removal removes dots and nothing else |
| DateNormaliser.DropOneDot | task-1.py:21 | a dot before whitespace or the end goes, and the text around it stays |
| DateNormaliser.RewriteSeptFrom | task-1.py:22 | the `Sept` rewrite never lengthens the text |
| DateNormaliser.RewriteAt | task-1.py:22 | at a whole word `sept`, in any case, the rewrite writes `Sep` and carries on after the word |
| DateNormaliser.SeptWordBetween | task-1.py:22 | `\bSept\b` under `IGNORECASE` matches any case of `sept` that has a non-word character or an end on each side |
| DateNormaliser.RewriteSplit | task-1.py:22 | the rewrite of a text splits at any point after a non-word character |
| DateNormaliser.RewriteShift | task-1.py:22 | the rewrite of a suffix that starts at a word boundary does not depend on the text before it |
| DateNormaliser.RewriteSeptWord | task-1.py:22 | a word `sept` in any case, between non-word characters, becomes `Sep`, and the text on each side is rewritten on its own |
| DateNormaliser.RewriteNone | task-1.py:22 | the `Sept` rewrite changes nothing when there is no whole word `sept` |
| DateNormaliser.RewriteLeadingSept | task-1.py:22 | a leading `Sept` with no more letters after it becomes `Sep` |
| DateNormaliser.PreprocessKeeps | task-1.py:20-22 | text with no outer whitespace, no dot and no word `sept` passes the preprocessing unchanged |
| DateNormaliser.NameIndex | task-1.py:23-26 | the index found holds the name; with no index, no entry holds it |
| DateNormaliser.ParseMonthName | task-1.py:23-26 | `%B`/`%b` reads a month 1..12 |
| DateNormaliser.ParseDay | task-1.py:23-26 | `%d` reads a day 1..31 from one or two characters |
| DateNormaliser.ParseMonthNumber | task-1.py:23-26 | `%m` reads a month 1..12 from one or two characters |
| DateNormaliser.ParseYear | task-1.py:23-26 | `%Y` reads exactly four digits |
| DateNormaliser.TryFormat | task-1.py:29 | a format that parses yields a valid date |
| DateNormaliser.TryTemplate | task-1.py:29 | a format that parses yields a valid date; an impossible day raises inside `strptime` |
| DateNormaliser.FirstFormat | task-1.py:27-32 | over any list of formats: the first one that parses wins, every earlier one fails, and none is found exactly when all fail |
| DateNormaliser.FirstTemplate | task-1.py:27-32 | the first format that parses wins; every earlier one fails; none is found exactly when all fail |
| DateNormaliser.Convert | task-1.py:18-33 | an answer is a canonical date; there is one exactly when some format parses the preprocessed text; otherwise `ValueError` with that text |
| DateNormaliser.Interpret | task-1.py:27-33 | on preprocessed text: an answer is a canonical date, there is one exactly when some format parses the text, and otherwise `ValueError` carries the text |
| DateNormaliser.ConvertToYyyymmdd | task-1.py:27-33 | the loop over the formats returns what `Convert` specifies |
| DateSpellings.MonthNamesDistinct | task-1.py:23-26 | the twelve names of each kind differ |
| DateSpellings.MonthNamesCross | task-1.py:23-26 | only `may` is both a full name and an abbreviation |
| DateSpellings.LowerCapitalize | task-1.py:23-26 | a capitalised month name lower-cases back to the name |
| DateSpellings.MatchSpelled | task-1.py:29 | a format reads its own spelling of a date and fills the date's fields |
| DateSpellings.FillSets | task-1.py:29 | a format sets exactly the fields it has a directive for |
| DateSpellings.TemplateReadsOwnSpelling | task-1.py:23-29 | each of the seven formats reads its own spelling back as the date when the date is valid, and refuses it otherwise |
| DateSpellings.PreprocessSpelled | task-1.py:20-22 | a spelling passes the preprocessing unchanged |
| DateSpellings.SpellingAgrees | task-1.py:23-32 | any format that reads a spelling of a date reads that same date |
| DateSpellings.ConvertSpelled | task-1.py:18-33 | every spelling of a valid date, in any of the seven formats, converts to that date's rendering |
| DateSpellings.ConvertRejectsInvalid | task-1.py:29-33 | a day the month does not have is refused with `ValueError` |
| DateSpellings.ConvertRejectsCommaless | task-1.py:23-33 | a month-first date without its comma is refused with `ValueError` |
| DateSpellings.NameFirstFails | task-1.py:23-26 | the month-first formats fail on text that does not start with a letter |
| DateSpellings.NumberFirstFails | task-1.py:23-26 | the day-first and year-first formats fail on text starting with a letter |
| DateSpellings.DayFirstFails | task-1.py:23-26 | the day-first formats fail on three leading digits |
| DateSpellings.YearFirstFails | task-1.py:23-26 | the year-first formats fail without four leading digits |
| DateSpellings.IsoFails | task-1.py:23-26 | `%Y-%m-%d` fails when a blank follows the year |
| DateSpellings.YearNameFails | task-1.py:23-26 | `%Y %b %d` and `%Y %B %d` fail when a hyphen follows the year |
| DateVariants.ConvertSamePreprocessed | task-1.py:18-22 | texts with the same preprocessed form convert alike |
| DateVariants.SpellingTidy | task-1.py:20-22 | a spelling has no outer whitespace and no dot, and preprocessing keeps it |
| DateVariants.ConvertPadded | task-1.py:20-21 | whitespace around a spelling, and a final dot, do not change its conversion |
| DateVariants.PreprocessSeptWord | task-1.py:20-22 | in a `%b` date, any case of `Sept`, with or without a dot, and `Sep.` preprocess to `Sep` and leave the day and year alone |
| DateVariants.ConvertSeptVariants | task-1.py:18-32 | for each of the three `%b` formats (month first, day first, year first) and any case of `Sept`, the `Sept`, `Sept.` and `Sep.` spellings of a September date convert to that date's rendering |
| DateExamples.VoyagerLong | task-1.py:18-33 | `September 5, 1977` converts to `19770905` |
| DateExamples.VoyagerAbbr | task-1.py:18-33 | `Sep 5, 1977` converts to `19770905` |
| DateExamples.VoyagerDayFirst | task-1.py:18-33 | `5 Sep 1977` converts to `19770905` |
| DateExamples.VoyagerIso | task-1.py:18-33 | `1977-09-05` converts to `19770905` |
| DateExamples.DottedSept | task-1.py:21-22 | `Sept 5, 1977` and `Sept. 5, 1977` convert to `19770905` |
| DateExamples.DayFirstUpperSept | task-1.py:20-30 | `5 SEPT. 1977` converts to `19770905` |
| DateExamples.PaddedLong | task-1.py:20-21 | ` September 5, 1977. ` converts to `19770905` |
| DateExamples.VoyagerCommaless | task-1.py:33 | `September 5 1977` raises `ValueError` |
| DateExamples.Rfc1149Long | task-1.py:52 | `April 1, 1990` converts to `19900401` |
| DateExamples.Rfc1149DayFirst | task-1.py:57-59 | `1 April 1990` converts to `19900401` |
| DateExamples.February30 | task-1.py:29-33 | `February 30, 2001` raises `ValueError` |
| Patterns.TakeDigits | task-1.py:41 | a greedy run of at most `max` digits, which stops at a non-digit |
| Patterns.Optional | task-1.py:41 | `x?` takes one character exactly when the next character is `x` |
| Patterns.YearEnd | task-1.py:41 | `\s+\d{4}` ends four digits after at least one blank |
| Patterns.DayYearEnd | task-1.py:41 | `\s+\d{1,2},?\s+\d{4}` is at least 7 characters long and ends in four digits |
| Patterns.LaunchDateEnd | task-1.py:41 | the date group starts with a letter, is at least 8 characters long, and ends in four digits |
| Patterns.MatchLaunch | task-1.py:41 | the launch capture starts with a letter and ends in four digits |
| Patterns.LaunchAfterLabel | task-1.py:41 | after the label, the capture starts with a letter and ends in four digits |
| Patterns.MatchDayMonthYear | task-1.py:57 | the day-month-year capture starts with a digit and ends in four digits |
| Patterns.MonthYearEnd | task-1.py:57 | `[A-Za-z]+\s+\d{4}\b` is at least 6 characters long and ends in four digits at a word end |
| Patterns.MatchTimestamp | task-1.py:79-81 | the timestamp capture is 9 or 10 digits |
| Patterns.TimestampAfterHead | task-1.py:79-81 | after the head, the capture is 9 or 10 digits |
| Patterns.Search | task-1.py:41 | `re.search`: the leftmost match; none exactly when no position matches |
| PatternShapes.YearEndExact | task-1.py:41 | the greedy `\s+\d{4}` ends at `e` exactly when some cut into blanks and four digits ends there |
| PatternShapes.DayYearEndExact | task-1.py:41 | the greedy `\s+\d{1,2},?\s+\d{4}` ends at `e` exactly when some cut of the pattern ends there |
| PatternShapes.LaunchGroupExact | task-1.py:41 | the greedy date group ends at `e` exactly when some cut of `[A-Za-z]+\.?\s+\d{1,2},?\s+\d{4}` ends there |
| PatternShapes.LaunchAfterLabelExact | task-1.py:41 | after the label, the matcher returns `c` exactly when some cut of `\s*[:,]?\s*` and the date group has `c` as its group |
| PatternShapes.MatchLaunchExact | task-1.py:41 | the launch matcher returns `c` at `i` exactly when the pattern, ignoring case, matches at `i` with group `c` |
| PatternShapes.MonthYearEndExact | task-1.py:57 | the greedy `[A-Za-z]+\s+\d{4}\b` ends at `e` exactly when some cut of it ends there |
| PatternShapes.DayMonthYearExact | task-1.py:57 | the day-month-year matcher returns `c` at `i` exactly when `\b\d{1,2}\s+[A-Za-z]+\s+\d{4}\b` matches at `i` with group `c` |
| PatternShapes.StopsAtExact | task-1.py:79-81 | the greedy `\s*` then the stop character succeeds exactly when some run of blanks is followed by the stop character |
| PatternShapes.TimestampBodyExact | task-1.py:79-81 | after the head, the matcher returns `c` exactly when some cut of the gap, 9 or 10 digits and `\s*<stop>` has `c` as its group |
| PatternShapes.TimestampExact | task-1.py:79-81 | the timestamp matcher returns `c` at `i` exactly when the pattern matches at `i` with group `c` |
| PatternShapes.MatchAtExact | task-1.py:41-81 | each of the four matchers returns `c` at `i` exactly when its pattern matches at `i` with group `c` |
| PatternShapes.SearchExact | task-1.py:41-81 | `re.search` from `i` returns `(k, c)` exactly when `k` is the first position from `i` where the pattern matches, and `c` is its group there |
| MatchContext.MatchesExtends | task-1.py:41-81 | a match stays a match, with the same group, when more text follows it; for the pattern ending in `\b`, the text must start with a non-word character |
| MatchContext.MatchesShifts | task-1.py:79-81 | a timestamp match stays a match, with the same group, when more text comes before it |
| MatchContext.SearchFinds | task-1.py:41-81 | a match at `k` makes `re.search` from any earlier position succeed, at `k` or before |
| MatchContext.SearchFromStart | task-1.py:41-81 | a match at the very start is what `re.search` returns |
| FirstMatch.FirstIndex | task-1.py:66-72 | the first accepted element; none exactly when no element is accepted |
| FirstMatch.FirstIndexIs | task-1.py:66-72 | the scan stops at the first accepted element |
| FirstMatch.FirstIndexSkip | task-1.py:66-72 | a rejected first element passes the scan on to the rest |
| FirstMatch.FirstIndexNext | task-1.py:66-72 | a rejected element moves the scan on to the next one |
| FirstMatch.FirstIndexHere | task-1.py:66-72 | the scan stops at an accepted element |
| FirstMatch.FirstIndexAgree | task-1.py:92-98 | scans whose tests agree element by element stop at the same place |
| Extractors.LaunchDate | task-1.py:36-44 | `ValueError` exactly when the label pattern is absent; otherwise the conversion of the first capture |
| Extractors.Rfc1149Date | task-1.py:47-60 | the literal on the info page gives the conversion of `April 1, 1990`; otherwise the first plain-text capture is converted, and none at all gives `RuntimeError` |
| Extractors.BrainCodepoint | task-1.py:63-72 | an answer is non-empty upper-case hex; `RuntimeError` exactly when no line qualifies |
| Extractors.FindBrainCodepoint | task-1.py:66-72 | the loop over the lines returns what `BrainCodepoint` specifies |
| Extractors.UpperHex | task-1.py:71 | upper-casing a non-empty hex field gives upper-case hex digits |
| Extractors.BrainFromFirstQualifying | task-1.py:66-71 | the answer is the upper-cased field of the first qualifying line |
| Extractors.BrainSkipsNonHex | task-1.py:69-70 | a `brain` line whose field is not hex is passed over |
| Extractors.GenesisTime | task-1.py:79-82 | the call pattern wins, then the `nTime` pattern, then the default 1231006505 |
| Extractors.TimestampBound | task-1.py:82 | a timestamp of at most 10 digits is below 10^10 |
| Extractors.BtcDate | task-1.py:75-84 | the answer is a canonical date in 1970..2286 whose day number is the timestamp div 86400 |
| Extractors.DefaultGenesisDate | task-1.py:82-83 | 1231006505 falls on 2009-01-03 UTC |
| Extractors.BtcDateDefault | task-1.py:82-84 | with neither pattern present the answer is `20090103` |
| Extractors.Kr2Isbn10 | task-1.py:87-98 | the answer is 10 digits: the first 10-digit ISBN of the first marked record that has one, or else `0131103628` |
| Extractors.FindKr2Isbn10 | task-1.py:92-98 | the nested loop returns what `Kr2Isbn10` specifies |
| Extractors.Kr2Record | task-1.py:93-97 | one pass of the outer loop yields an ISBN exactly for a marked record with a 10-digit ISBN, and then its first one |
| Extractors.FindIsbn10 | task-1.py:95-97 | the inner loop finds the first 10-digit ISBN of a record |
| Extractors.Kr2IgnoresUnmarked | task-1.py:93-94 | the ISBN lists of unmarked records do not affect the answer |
| Extractors.Kr2SkipsMarkedWithoutIsbn10 | task-1.py:95-97 | a marked record without a 10-digit ISBN does not end the scan |
| ExtractorExamples.LaunchOnVoyagerPage | task-1.py:41-44 | a page that starts with `Launch Date and Time`, a newline and `September 5, 1977` gives `19770905`, whatever follows |
| ExtractorExamples.LaunchWithoutComma | task-1.py:41-44 | a page that starts with `Launch Date and Time September 5 1977` makes `launch_date` raise `ValueError` on that capture |
| ExtractorExamples.Rfc1149FromInfoPage | task-1.py:51-53 | the info-page literal gives `19900401` |
| ExtractorExamples.Rfc1149FromPlainText | task-1.py:57-59 | without the literal on the info page, an RFC text that starts with `1 April 1990`, followed by nothing or a non-word character, gives `19900401` |
| ExtractorExamples.GenesisCallFirst | task-1.py:79-84 | in a source with `CreateGenesisBlock(1231006505,` and a later `genesis.nTime = 1296688602;`, both patterns match, the call wins, and the answer is `20090103` |
| Flag.Join | task-1.py:141 | the parts written with a `-` between neighbours |
| Flag.Split | task-1.py:141 | the pieces between dashes; none of them contains a dash |
| Flag.SplitJoin | task-1.py:141 | joining dash-free parts and splitting again gives the parts back |
| Flag.JoinSplit | task-1.py:141 | splitting and joining again gives any text back |
| Flag.TokenLayout | task-1.py:141 | the token is `FLAG{`, then the five parts in order separated by `-`, then `}` |
| Flag.TokenSplits | task-1.py:141 | between the braces, a token splits back into its five parts |
| Flag.AssembleFlag | task-1.py:133-141 | a token exists exactly when the three raising extractors succeed; otherwise the error of the first one that raises |
| Flag.AssembledToken | task-1.py:134-141 | a token that is made is the token of the five answers |
| Flag.PartsHaveNoDash | task-1.py:134-141 | no answer contains a dash |
| Flag.AssembledTokenSplits | task-1.py:134-141 | an assembled token reads back as the five answers in extractor order |
| Flag.LaunchFailureStops | task-1.py:134-135 | when `launch_date` raises, nothing else that was fetched matters |
| Flag.RfcFailureStops | task-1.py:134-136 | when `rfc1149_date` raises, the later sources do not matter |
| Flag.ReferenceToken | task-1.py:141 | the expected answers make `FLAG{19770905-19900401-1F9E0-20090103-0131103628}` |
| Flag.FlagOfExpectedAnswers | task-1.py:105-141 | the five answers the unit tests expect assemble into the reference flag |

## Left out

- HTTP (`requests.get`, `raise_for_status`, headers, timeouts) is left out. Each extractor takes the content its request would have delivered as a parameter.
- BeautifulSoup's `get_text(separator="\n")` is left out. `LaunchDate` takes the text view.
- `iter_lines(decode_unicode=True)` is left out. `BrainCodepoint` takes the lines.
- JSON decoding and the `docs`/`edition_name`/`isbn` defaults are left out. `Doc` holds `str(edition_name)` and the ISBNs as strings.
- The SHA-256 digest of the flag (task-1.py:142) is left out. `AssembleFlag` stops at the token.
- Unicode is reduced to ASCII. Letters, digits and `\w`, case mapping and `strptime`'s locale month names are modelled on ASCII only. Whitespace is Python's `isspace` set.
- Regular-expression backtracking is not run step by step. Each matcher in `Patterns` is greedy and never gives anything back. `PatternShapes` states each pattern as the set of ways to cut the text into its pieces, and proves that the greedy matcher returns a group exactly when some cut has that group.
- `strptime` is modelled only for the directives of the seven formats (`%B %b %d %m %Y`, blanks and literals). Its other directives and its literal escaping are not part of this model.
- DateNormaliser.RewriteSeptFrom: its own contract states only that the rewrite never lengthens the text. What it rewrites is stated by `RewriteAt`, `RewriteNone` and `RewriteSeptWord`.
- Calendar.Render always writes the year in four digits. Python's `%Y` for years below 1000 depends on the platform, and no template can produce such a year except by parsing a leading zero.
- Calendar.UtcDate is modelled only for timestamps from 1970 on. The patterns capture only unsigned 9- or 10-digit numbers, so no negative timestamp can occur.
- Extractors.BrainCodepoint does not check the 4-6 character length that the unit test asserts. The source function does not check it either.
- The unit tests (task-1.py:105-130) and the script entry point are not executed. Their expected values appear as the lemmas of `DateExamples`, `ExtractorExamples`, `Extractors.BtcDateDefault` and `Flag.FlagOfExpectedAnswers`.
- task-2.py is not part of this model.
- The `ValueError` raised at task-1.py:33 carries the preprocessed text, not the caller's original. The model keeps that: `Unparsed(Preprocess(s))`.
