# nitter_parser in Dafny

A model of `nitter_parser.py`, the module that reads a scraped Nitter profile page into a
`Profile` record. The page is link-annotated text. The record holds:

- the handle (`@name`) and the display name;
- the bio;
- the recent posts, each with its cleaned text, its `Mon d` time and four engagement counters.

Python's regular expressions are modelled one pattern at a time. Each is a hand-written matcher
that answers where the backtracking engine ends the match starting at a position. The image,
status and handle matchers are proved equal to the pattern read literally, start and end. The
titled-link, bio and number matchers are proved sound and complete as to where they match.
For the titled link, which of several possible ends is taken is not proved (see "Left out").
`re.search`, `re.sub`, `re.findall` and `re.split` are modelled on top of these matchers, with
their scanning rules.

Modules:

- `Text`: character classes (`\s`, `\d`, `\w`), greedy runs, `str.strip()`, `str.split()` and
  `int()` on strings.
- `Patterns`: the link patterns, one matcher each.
- `Cleaning`: `clean_tweet_text`, the nine substitutions in order.
- `Dates`: `parse_date` and `is_within_days`, with the proleptic Gregorian ordinal used by
  `datetime`.
- `Engagement`: `extract_engagement_metrics`.
- `NitterParser`: the records, the header searches, the split into post blocks, the per-block
  decision, and `parse_nitter_content` as a method with its loop.

The current moment, which the source reads with `datetime.now()`, is a parameter `now`.

Behaviour of the code as written, which the model follows:

- **The metrics are never filled in.** `re.findall(r'\n(\d+(?:,\d+)?)\s*$', block)` has no
  MULTILINE flag, so `$` only matches at the end of the block. Every match therefore runs to the
  end, and at most one number is captured. Every post gets four `None` counters
  (`Engagement.MetricsAlwaysNone`). Four captured numbers would be converted in the
  retweets/quotes/replies/likes order (`Engagement.MetricsPresent`), but that case is never reached.
- **Cleaning is not idempotent.** The four-number deletion runs before the one-number deletion,
  so `"a\n1\n2"` cleans to `"a\n1"`, and that cleans again to `"a"`
  (`Cleaning.CleaningNotIdempotent`).
- **A date token outside every link annotation stays in a post's text.** No cleaning pattern
  matches a bare `[Jun 10]`, so such a token is kept; a run of line breaks inside it becomes
  one. A token inside a link's label, target or title is deleted with that link.

## Model

| member | source | states |
|---|---|---|
| Text.Strip | nitter_parser.py:40 | the result is a slice of the input with only whitespace removed at either end; it neither starts nor ends with whitespace, and it is empty exactly when the input is all whitespace |
| Text.FieldsAreRuns | nitter_parser.py:49 | `str.split()` returns exactly the maximal whitespace-free runs of the text, in order: each field is the text between two positions bounded by whitespace or an end, the fields do not overlap, and every character outside them is whitespace |
| Text.FieldsOfTwo | nitter_parser.py:49 | two non-whitespace words joined by whitespace split into exactly those two words |
| Text.PyIntOfParts | nitter_parser.py:51 | `int()` accepts any text made of the whitespace it skips (not U+001C–U+001F), an optional `+` or `-`, at most 4300 digits with single underscores between them, and whitespace; the value is the numeral, negated after `-` |
| Text.PyIntParts | nitter_parser.py:51 | `int()` accepts nothing else: every accepted text splits into those four parts, its padding holds no U+001C–U+001F, its numeral has at most 4300 digits, and its value is theirs |
| Text.PyIntRefusesFileSeparator | nitter_parser.py:51 | `int()` rejects a number preceded by U+001C, although `\s` and `str.split()` count that character as whitespace |
| Text.PyIntOfDigits | nitter_parser.py:51 | a non-empty run of at most 4300 decimal digits converts to its numeral value |
| Text.PyIntRefusesLongDigits | nitter_parser.py:51 | `int()` rejects a run of more than 4300 digits, CPython's default digit limit |
| Text.PyIntDecimalString | nitter_parser.py:51 | a written number of at most 4300 digits, a day number among them, reads back as the same number |
| Patterns.ImageLinkAtSpec | nitter_parser.py:25 | the image-link matcher succeeds at `i` with end `e` exactly when the text there is `[![](…)](…)` with non-empty targets free of `)` |
| Patterns.StatusLinkAtSpec | nitter_parser.py:33 | the status-link matcher succeeds exactly on `[](https://nitter.net/…)` with a non-empty target free of `)` |
| Patterns.HandleAfterSpec | nitter_parser.py:99 | the trailing `\s+\[@\w+\]` matches exactly when whitespace, `[@`, a word and `]` follow |
| Patterns.LinkAtSound | nitter_parser.py:27-31 | every titled-link match decomposes into a label free of `]`, a target free of `)`, the marker, whitespace, a quoted title with its prefix, and `)` |
| Patterns.LinkAtComplete | nitter_parser.py:27-31 | every such decomposition makes the matcher succeed at that position |
| Cleaning.Sub | nitter_parser.py:25-39 | `re.sub` returns the text unchanged when the pattern matches at no position |
| Cleaning.DeleteIsGaps | nitter_parser.py:25-33 | a deleting `re.sub` gives exactly the text between the matches it takes: match starts p1 < … < pk, each the first position at or after the previous match's end where the pattern matches, each ending where the matcher says; no match starts after the last end; the result is the gaps before, between and after them, concatenated |
| Cleaning.DeleteUnchanged | nitter_parser.py:25-33 | a deleting `re.sub` returns the text unchanged exactly when the pattern matches nowhere |
| Cleaning.NoBracketNoLink | nitter_parser.py:25-33 | text without `[` is kept by every link deletion |
| Cleaning.DeleteLinksWithoutBracket | nitter_parser.py:25-33 | text without `[` passes steps one to five unchanged |
| Cleaning.DeleteLinks | nitter_parser.py:25-33 | the five link deletions never lengthen the text, and shorten it whenever a profile-image link occurs in it; each of the five steps is characterised exactly by `Cleaning.DeleteIsGaps` |
| Cleaning.DeleteNumberLines | nitter_parser.py:35-37 | deleting trailing numeric lines keeps the longest prefix before the first position where the lines start and run to the end |
| Cleaning.DeleteNumberLinesAt | nitter_parser.py:35-37 | when the first such position is `k`, the result is the text before `k` |
| Cleaning.CollapseIsSqueeze | nitter_parser.py:39 | `re.sub(r'\n+', '\n', …)` equals an independent definition that leaves each maximal run of line breaks as a single one and every other character as it was |
| Cleaning.CollapseFromNoDouble | nitter_parser.py:39 | after collapsing, no line break directly follows another |
| Cleaning.CollapseFromContent | nitter_parser.py:39 | collapsing changes nothing but line breaks |
| Cleaning.CollapseUnchanged | nitter_parser.py:39 | collapsing keeps the text exactly when it has no two adjacent line breaks |
| Cleaning.StripNoDoubleNewline | nitter_parser.py:40 | stripping keeps the absence of adjacent line breaks |
| Cleaning.TidyLines | nitter_parser.py:35-40 | steps six to nine give text with no surrounding whitespace and no adjacent line breaks |
| Cleaning.CleanTweetText | nitter_parser.py:22-40 | the cleaned text has no whitespace at either end and no line break directly after another |
| Cleaning.TidyTwoNumberLines | nitter_parser.py:35-40 | `"a\n1\n2"` loses only its last line: the four-number deletion misses it and the one-number deletion takes one line |
| Cleaning.CleaningNotIdempotent | nitter_parser.py:22-40 | cleaning `"a\n1\n2"` gives `"a\n1"`, and cleaning that again gives `"a"` |
| Dates.DaysInMonth | nitter_parser.py:61 | every month has 28 to 31 days |
| Dates.OrdinalOrder | nitter_parser.py:68 | calendar order of valid dates is the order of their ordinals, and equal ordinals mean the same date |
| Dates.OrdinalBounds | nitter_parser.py:67 | valid dates have ordinals from 1 to 3652059 |
| Dates.DateOfOrdinal | nitter_parser.py:67 | every ordinal in range is the ordinal of a valid date, so `now - timedelta` stays in range exactly when its ordinal does |
| Dates.MonthsTable | nitter_parser.py:44-47 | the month map sends the k-th abbreviation to k and has no other keys |
| Dates.ParseDate | nitter_parser.py:42-61 | a parsed date is valid at midnight, its month and day come from the two fields, its year is now's year or the one before when the month is later than now's, so it falls in the twelve months ending with now's month |
| Dates.ParseDateOfText | nitter_parser.py:42-61 | whitespace, a month abbreviation, whitespace, a numeral of at most 4300 digits with an optional sign and single underscores, and whitespace parse to that month and day in the resolved year exactly when that date exists, and raise otherwise |
| Dates.ParseDateShape | nitter_parser.py:42-61 | conversely, every text that parses has that shape, its day numeral within the digit limit; the date it names exists, and the result is that date at midnight |
| Dates.ParseDateOfToken | nitter_parser.py:42-61 | a written `Mon d`, its day within the digit limit, parses to that month and day in the resolved year exactly when that date exists |
| Dates.IsWithinDays | nitter_parser.py:63-70 | a date that does not parse, or a `days` beyond `timedelta`'s range, gives False |
| Dates.WithinDaysIsComparison | nitter_parser.py:66-68 | True exactly when the date parses, `now - days` is a representable datetime, and the date is at or after it |
| Dates.WithinDaysBoundary | nitter_parser.py:67-68 | on the cutoff day itself the date counts only when now is exactly midnight |
| Dates.WithinDaysWider | nitter_parser.py:63-70 | a date within `days` stays within any wider window that is still representable |
| Engagement.NumberAtSound | nitter_parser.py:75 | a match is a line break, a number with at most one comma group, and nothing but whitespace to the end of the block |
| Engagement.NumberAtComplete | nitter_parser.py:75 | conversely, a line break, a grouped number and nothing but whitespace to the end is a match, and the number is what it captures |
| Engagement.FindNumbersFrom | nitter_parser.py:75 | `re.findall` captures only grouped numbers, and captures something exactly when some position matches |
| Engagement.AtMostOneNumber | nitter_parser.py:75 | the anchored `findall` captures at most one number |
| Engagement.RemoveCommasKeeps | nitter_parser.py:79-82 | `replace(',', '')` keeps every character that is not a comma, in order, and nothing else |
| Engagement.GroupedNumberConverts | nitter_parser.py:79-85 | a captured number of at most 4300 digits, its comma removed, always converts, so the `ValueError` handler is not reached for it |
| Engagement.GroupedNumberTooLong | nitter_parser.py:79-85 | a captured number of more than 4300 digits does not convert, the one way to reach the `ValueError` handler |
| Engagement.MetricsFromNumbers | nitter_parser.py:76-86 | the counters are all present or all absent; fewer than four numbers give none; present counters are the last four numbers in retweets, quotes, replies, likes order |
| Engagement.MetricsPresent | nitter_parser.py:76-83 | four captured numbers of at most 4300 digits each at the end of the list always give present counters |
| Engagement.ExtractEngagementMetrics | nitter_parser.py:72-86 | the four counters are all present or all absent |
| Engagement.MetricsAlwaysNone | nitter_parser.py:72-86 | as written, every block gives four absent counters |
| NitterParser.DateTokenAt | nitter_parser.py:113 | a date token ends inside the text, after its month name and at least one space and one digit |
| NitterParser.DateTokenParses | nitter_parser.py:121-128 | the `Mon d` inside any date token has the two-field shape `parse_date` reads, so it parses exactly when that day exists in that month of the resolved year |
| NitterParser.SearchFrom | nitter_parser.py:94 | `re.search` returns the leftmost match and its first group, and reports none only when no position matches |
| NitterParser.FirstHandle | nitter_parser.py:94-96 | None exactly when no `@` is followed by a word character; otherwise the whole word after the leftmost such `@` |
| NitterParser.DisplayNameLabel | nitter_parser.py:99-103 | None exactly when no display-name link matches anywhere; otherwise the label of the leftmost one |
| NitterParser.DisplayNameLabelSound | nitter_parser.py:99-101 | the display name found is a non-empty link label free of `]`, followed by a target, a quoted title and an `@handle` link |
| NitterParser.BioAtSound | nitter_parser.py:106 | the bio captured is a non-empty text free of line breaks that runs to the end of its line, found after `Bio:` and at least one whitespace character |
| NitterParser.BioAtComplete | nitter_parser.py:106 | conversely, `Bio:`, at least one whitespace character and then a character other than a line break make the pattern match there |
| NitterParser.BioText | nitter_parser.py:106-108 | None exactly when the bio pattern matches nowhere; otherwise the capture of the leftmost match |
| NitterParser.SplitBlocks | nitter_parser.py:113 | `re.split` gives at least one block; rejoining the blocks with line breaks gives back the page; every block after the first starts with a date token; and no block holds a line break followed by a date token, so the page is split at every such line break |
| NitterParser.NoSplitInsideToken | nitter_parser.py:113 | no line break inside a date token is a split point |
| NitterParser.FirstDateToken | nitter_parser.py:121-125 | Some exactly when the block holds a date token; the time is then the `Mon d` of the leftmost one |
| NitterParser.FirstDateTokenAtHead | nitter_parser.py:121-125 | a block that opens with a date token takes its time from that token |
| NitterParser.DateTokenHasMonthBracket | nitter_parser.py:117-123 | the month-bracket test never rejects a block that has a date token |
| NitterParser.BlockTweet | nitter_parser.py:115-145 | a block yields a post exactly when it is not blank, has a date token, is recent and cleans to non-empty text; the post's time is the leftmost token, its text the cleaned block, its counters the extracted metrics |
| NitterParser.TweetsOfOrder | nitter_parser.py:111-145 | the posts are exactly those of the blocks that yield one, in block order |
| NitterParser.CollectTweets | nitter_parser.py:111-145 | the loop builds the posts of the blocks in order; each has non-empty text, a recent time and four absent counters |
| NitterParser.HeaderFields | nitter_parser.py:93-108 | given the three search results, `username`, `display_name` and `bio` are set as the header code sets them |
| NitterParser.ProfileHeader | nitter_parser.py:90-108 | the header dictionary: `username` is `@` plus the first handle and `display_name` the link label or else the handle, both absent without a handle; `bio` is present exactly when a bio line is found, and holds it stripped |
| NitterParser.ParseNitterContent | nitter_parser.py:88-152 | the username is `@` plus the first handle, or empty; the display name is the link label, or the handle, or empty when no handle; the bio is the stripped bio line if any; the posts are those of the split page, each non-empty, recent and without counters |

## Left out

- `\d`, `\w` and `int()` are modelled on ASCII digits and letters only. Python also accepts other
  Unicode digits and letters. `\s`, `str.strip()` and `str.split()` use Python's full whitespace
  set; `int()` skips that set without U+001C–U+001F, as CPython does.
- Text.PyInt: the digit limit is CPython's default, 4300 (`MaxStrDigits`). The limit can be
  changed at run time with `sys.set_int_max_str_digits` or `PYTHONINTMAXSTRDIGITS`, and
  Pythons older than 3.11 (and 3.10.7, 3.9.14) have none; the model fixes it at the default.
- `datetime.now()` is one parameter `now`. The source reads the clock again in every
  `parse_date` and `is_within_days` call, so two calls can see different moments; that race is
  not modelled.
- Time zones are not modelled: every datetime is naive, as in the source. Time of day is kept as
  microseconds since midnight.
- Exceptions are modelled as results. A `parse_date` that raises is `None`, and `is_within_days`
  then returns False. The source's `parse_date` raises to its caller instead.
- `days` and `max_days` are integers only. Other argument types, and the default value 3, are
  left to the caller.
- `Patterns.LinkAt`: when a link's target could end at several `)`, the model tries the ends
  right to left, as the backtracking engine does. The lemmas prove that a match exists exactly
  when the parts do, not which end an independent leftmost-longest definition would pick.
- NitterParser.BioAt: proved sound and complete as to where the bio pattern matches, and the
  capture is proved to run to the end of its line. Whitespace lines can come between `Bio:` and the text.
  No lemma states which start the engine then picks for the capture.
- Cleaning.CleanTweetText: its own contract states only the shape of the result (no whitespace
  at either end, no adjacent line breaks). The content is stated step by step rather than as one
  formula: `Cleaning.DeleteIsGaps` for steps one to five, `Cleaning.DeleteNumberLines` for six
  and seven, `Cleaning.CollapseIsSqueeze` for eight and `Text.Strip` for nine.
- `Profile.tweets` defaults to `None` in the dataclass; the parser always sets it, so the model
  makes it a sequence.
- The crawler scripts, file and network I/O, and the rest of the repository are not part of
  this model.
