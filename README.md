# imdb_reminder in Dafny

A model of the decision and string logic of `imdb_reminder.py`, a script that
looks up TV shows on IMDb and mails a reminder with each show's airing
status. The script does three things, and so does the model:

- **get_show_url**. The show name becomes a search query by replacing every
  space with `+`. The search address is `https://imdb.com/find?q=` followed
  by that query. The first result's link is made absolute by prefixing
  `https://www.imdb.com`.
- **get_show_status** reads the show page and, for an ongoing show, the page
  of its latest season:
  - The last subtext anchor (the runtime, such as `TV Series (2008–2013)`)
    is sliced from just after the first en dash up to two characters before
    the end. When that slice is all digits, the show has finished.
  - Otherwise the first episode of the latest season is examined. If it is
    unaired, the status is "The next season begins in" its stripped airdate
    text.
  - Otherwise the remaining episodes are scanned, in order, for the first
    unaired one. Its airdate, read with `strptime('%d %b. %Y')` and written
    with `strftime('%Y-%m-%d')`, gives "Next episode airs on …".
  - When no episode is unaired the function falls off its end and returns
    `None`.
- **main**:
  - joins the command-line show arguments with spaces and splits the result
    on `,`;
  - collects the statuses one show at a time;
  - builds the message, one block per (show, status) pair:
    `TV Series Name: <show.title()>\nStatus: <status>\n\n`.

There are seven modules:

- `Common`: `Option`, `Result` and the errors.
- `PyStr`: ASCII models of the Python string methods the script uses.
- `ShowUrl`: get_show_url.
- `Runtime`: the finished test.
- `Airdate`: the date parsing and formatting.
- `Status`: get_show_status.
- `Report`: main.

The web is abstracted into inputs:

- **The search page**: a function from the search address to the result
  links it lists.
- **A show page**: its runtime anchor texts and its latest-season links.
- **A season page**: a function from its address to the episode rows, each
  holding an unaired flag and its airdate texts.

Because the season page is a function of its address, the same statement
covers both things worth knowing: which address is fetched, and that a
finished show fetches nothing.

Every Python exception the script can raise on its core path becomes an
`Err` of `Common.Error`:

- `IndexError` of an XPath result's `[0]` or `[-1]`;
- `ValueError` of `str.index`;
- `ValueError` of `strptime`.

The `None` that `get_show_status` returns is `Status.ShowStatus.Unknown`, and
`str.format` writes it as `None`.

The model follows the script as written:

- Every link is prefixed with the site root, whatever it starts with.
- Only the spaces in the name are replaced. Nothing else is URL-encoded.
- A search with no result is the `IndexError` of `[0]` (the
  `NoSearchResult` error). A season with no unaired episode after the first
  gives the `None` status (`Unknown`).
- No exception is caught: the first one, for any show, ends the run
  (`Report.StatusesOf`, `Report.Run`). Shows are handled one after
  another.

## Model

| member | source | states |
|---|---|---|
| PyStr.ReplaceChar | imdb_reminder.py:45 | `str.replace` of one character: same length; each occurrence of the old character becomes the new one; every other character is unchanged |
| PyStr.IndexOf | imdb_reminder.py:70 | `str.index`: a found index holds the character and no earlier position does; `None` exactly when the character does not occur |
| PyStr.IsDigits | imdb_reminder.py:70 | `str.isdigit`: at least one character, and every character a digit; `Runtime.FinishedIff` states the runtime test through it |
| PyStr.AllSpace | imdb_reminder.py:87-94 | text made of whitespace only; `Strip` and the `%b. %Y` layout are stated with it |
| PyStr.Strip | imdb_reminder.py:87-93 | `str.strip`: the result is the text less the whitespace it starts with and the whitespace it ends with; it neither starts nor ends with whitespace; it is empty exactly when the text is all whitespace |
| PyStr.StripUnchanged | imdb_reminder.py:93 | a non-empty text with no whitespace at either end is its own strip |
| PyStr.StripIdempotent | imdb_reminder.py:87-93 | stripping twice is stripping once |
| PyStr.Title | imdb_reminder.py:134 | `str.title`: each letter right after a letter is lower-cased, and every other letter is upper-cased; the length is kept |
| PyStr.TitleIdempotent | imdb_reminder.py:134 | title-casing a title-cased text changes nothing |
| PyStr.Join | imdb_reminder.py:118 | `sep.join`: the pieces with the separator between each two; `JoinSplit`, `SplitJoin` and `Report.ShowList` state it against `Split` |
| PyStr.JoinCons | imdb_reminder.py:118 | joining a first piece before at least one more puts the separator between it and the join of the rest |
| PyStr.Split | imdb_reminder.py:118 | `str.split` on one character: at least one piece, none containing the separator |
| PyStr.JoinSplit | imdb_reminder.py:118 | joining the pieces of a split with the separator gives back the text |
| PyStr.SplitJoin | imdb_reminder.py:118 | splitting the join of separator-free pieces gives back the pieces |
| ShowUrl.SearchQuery | imdb_reminder.py:45 | the query has the name's length, contains no space, and has `+` exactly where the name has a space; every other character is the name's |
| ShowUrl.SearchUrl | imdb_reminder.py:44-45 | the address formatted for the search; `SearchUrlShape` states its shape and `GetShowUrl` uses it |
| ShowUrl.Absolute | imdb_reminder.py:51 | the site root followed by a link, for the show link here and the season link at line 75; `AbsoluteRoundTrip` and `AbsoluteInjective` state that it loses nothing |
| ShowUrl.SearchUrlShape | imdb_reminder.py:44-45 | the search address is the fixed prefix followed by the query; it holds no space; replacing `+` back by space recovers a name that held no `+` |
| ShowUrl.GetShowUrl | imdb_reminder.py:44-51 | an error (`IndexError` of `[0]`) exactly when the search lists no result; otherwise the site root followed by the first link |
| ShowUrl.AbsoluteRoundTrip | imdb_reminder.py:51 | prefixing the site root changes nothing else: removing the root gives back the link |
| ShowUrl.AbsoluteInjective | imdb_reminder.py:75 | distinct links give distinct addresses |
| Runtime.DropLastTwo | imdb_reminder.py:70 | Python's `s[start:-2]`: the characters from `start` up to two before the end, or the empty string when that end is at or before `start` |
| Runtime.IsFinished | imdb_reminder.py:69-70 | an error (`ValueError` of `str.index`) exactly when the runtime has no en dash |
| Runtime.FinishedIff | imdb_reminder.py:70-71 | with `i` the first en dash: finished exactly when the characters from `i + 1` up to two before the end are at least one and all digits |
| Runtime.NothingAfterDashIsOngoing | imdb_reminder.py:70 | an empty slice is not all digits, so the show is ongoing |
| Runtime.FinishedExample | imdb_reminder.py:70-71 | `TV Series (2008–2013)` followed by a newline is finished |
| Runtime.OngoingExample | imdb_reminder.py:70-71 | `TV Series (2008– )` followed by a newline is ongoing |
| Runtime.AfterFirstDash | imdb_reminder.py:70-71 | only what follows the first en dash decides: finished exactly when what follows it, less its last two characters, is at least one character and all digits |
| Airdate.ValidDate | imdb_reminder.py:94 | the date `datetime` accepts: a year from 1 to 9999, a month from 1 to 12 and a day the month has; `ParseAirdateIff` and `NoLeapDay` state `strptime` with it |
| Airdate.MonthNumber | imdb_reminder.py:94 | `%b`: the month whose abbreviation matches the name in any letter case; `None` when no abbreviation matches |
| Airdate.MonthNumberOfAbbr | imdb_reminder.py:94 | each month's abbreviation reads back as that month |
| Airdate.KeysDistinct | imdb_reminder.py:94 | no two months share an abbreviation |
| Airdate.DayToken | imdb_reminder.py:94 | `%d` and the whitespace after it: a success is a day token (`01`-`31`, `1`-`9`, or a space and `1`-`9`) followed by whitespace, read as its value; a failure means no such token is followed by whitespace |
| Airdate.ParseAirdate | imdb_reminder.py:94 | `strptime(text, '%d %b. %Y')`: a success is a date that exists; a failure is the `ValueError` for that text |
| Airdate.ParseMonthYear | imdb_reminder.py:94 | after the day, a success keeps the day already read and is a date that exists; the rest of the text is the month's abbreviation in any letter case, `.`, whitespace and four digits that are the year |
| Airdate.ParseYear | imdb_reminder.py:94 | after the month, a success keeps the day and month already read; the rest of the text is whitespace and four digits that are the year and end the text |
| Airdate.ParseDisplayText | imdb_reminder.py:94 | for any day 1-31, month and four-digit year as the page writes them (`05 Jan. 2023`): the text parses exactly when the date exists, and then to that date |
| Airdate.ParseDateText | imdb_reminder.py:94 | every date reads back from the text the page shows for it |
| Airdate.NoLeapDay | imdb_reminder.py:94 | 29 February of a year that is not a leap year is a `ValueError` |
| Airdate.Pad2 | imdb_reminder.py:95 | two digits whose value is the number |
| Airdate.Pad4 | imdb_reminder.py:95 | four digits whose value is the number |
| Airdate.IsoDate | imdb_reminder.py:95 | `strftime('%Y-%m-%d')`: ten characters, `-` at positions 4 and 7, and three digit fields whose values are the year, the month and the day |
| Airdate.ReformatExample | imdb_reminder.py:94-95 | `05 Jan. 2023` parses to 5 January 2023, written `2023-01-05` |
| Airdate.SecondExample | imdb_reminder.py:94-95 | `12 Mar. 2024` parses to 12 March 2024, written `2024-03-12` |
| Airdate.DigitsArePad4 | imdb_reminder.py:94-95 | four digits are the four-digit writing of their value |
| Airdate.DayTokenOf | imdb_reminder.py:94 | a day token followed by whitespace is the day `%d` reads |
| Airdate.SkipToMonth | imdb_reminder.py:94 | the whitespace after the day is skipped up to the first character that is not whitespace |
| Airdate.MonthNumberOfKey | imdb_reminder.py:94 | a name whose letters lower-cased are a month's key reads as that month |
| Airdate.YearPartParses | imdb_reminder.py:94 | whitespace and four digits ending the text are read as the year they write |
| Airdate.MonthPartParses | imdb_reminder.py:94 | a month abbreviation, `.` and a year part are read as that month and year, when the date exists |
| Airdate.MonthPartAt | imdb_reminder.py:94 | the tail of the format, stated on the text from a position and on the whole text, is the same condition |
| Airdate.DayAtOfToken | imdb_reminder.py:94 | the day token read and the whitespace after it end where the month starts |
| Airdate.MatchIsParsed | imdb_reminder.py:94 | a text laid out as `%d %b. %Y` that names a date that exists parses to that date |
| Airdate.ParsedMatches | imdb_reminder.py:94 | a text that parses is laid out as `%d %b. %Y` and names the date it parses to |
| Airdate.ParseAirdateIff | imdb_reminder.py:94 | a text parses to a date exactly when it is laid out as `%d %b. %Y` (any letter case in the month, any whitespace between fields, four-digit year at the end) and names that date, which exists |
| Airdate.NoMatchIsError | imdb_reminder.py:94 | a text that does not match the format for any date is the `ValueError` for that text |
| Airdate.LowerCaseExample | imdb_reminder.py:94 | `5 jan. 2023` reads as 5 January 2023: the month in any case, the day without its zero |
| Airdate.MissingDotExample | imdb_reminder.py:94 | `05 Jan 2023`, with no `.` after the month, is a `ValueError` |
| Status.FinishedText | imdb_reminder.py:71 | the sentence for a finished show; `FinishedIgnoresSeason` states when it is returned |
| Status.NextSeasonPrefix | imdb_reminder.py:88 | the sentence for a next season, before its airdate; `FirstUnairedIsNextSeason` states when it is returned |
| Status.NextEpisodePrefix | imdb_reminder.py:95 | the sentence for a next episode, before its date; `NextEpisodeSentence` states when it is returned |
| Status.Render | imdb_reminder.py:71-95 | the value `get_show_status` returns: `None` exactly for the status of falling off the end |
| Status.SentenceKindOfRender | imdb_reminder.py:71-95 | each returned status is the sentence of its own kind, read from its first and fifth characters |
| Status.RenderInjective | imdb_reminder.py:71-95 | distinct statuses are returned as distinct values |
| Status.FirstUnaired | imdb_reminder.py:91-92 | the scan for the first unaired episode: a found index is unaired and every episode before it is aired; `None` means none is unaired |
| Status.NextEpisodeOf | imdb_reminder.py:92-95 | a success is a next-episode date that exists; no airdate text is the `IndexError` of `[0]`; a stripped airdate that does not parse is the `ValueError` for that text |
| Status.SeasonStatus | imdb_reminder.py:81-95 | a success is never "finished"; an empty episode list is the `IndexError` of `episodes[0]`; an unaired first episode with no airdate text is the `IndexError` of `[0]` |
| Status.SeasonUrl | imdb_reminder.py:74-75 | the latest season's address: the site root followed by the first season link, or none; `OnlyLatestSeasonConsulted` and `OngoingUsesLatestSeason` state its use |
| Status.StatusOf | imdb_reminder.py:64-95 | every status it yields can be returned (a next-episode date exists); no runtime anchor is the `IndexError` of `[-1]`; a runtime with no en dash is the `ValueError` of `str.index`; an ongoing show with no season link is the `IndexError` of `[0]` |
| Status.GetShowStatus | imdb_reminder.py:64-78 | the method's result is `StatusOf` of the show page and the season page |
| Status.ScanSeason | imdb_reminder.py:81-95 | the first-episode rule and the loop over the other episodes give `SeasonStatus` of the episode list |
| Status.FinishedIgnoresSeason | imdb_reminder.py:69-77 | a finished show's status is the fixed sentence whatever its season links and whatever the season pages hold |
| Status.OnlyLatestSeasonConsulted | imdb_reminder.py:74-81 | the status depends on the season page only at the latest season's address |
| Status.OngoingUsesLatestSeason | imdb_reminder.py:69-81 | an ongoing show with a season link has the status of the page at the site root plus that link |
| Status.FirstUnairedIsNextSeason | imdb_reminder.py:85-88 | an unaired first episode gives "The next season begins in " and its stripped airdate, whatever follows it |
| Status.EarliestUnairedDecides | imdb_reminder.py:91-95 | with the first episode aired, the earliest unaired episode after it decides the status, and later episodes do not matter |
| Status.NoUnairedIsUnknown | imdb_reminder.py:91-95 | with no episode unaired, the status is `None` |
| Status.ParsedIsNextEpisode | imdb_reminder.py:92-94 | an unaired episode whose stripped airdate parses is the next episode on that date |
| Status.NextEpisodeSentence | imdb_reminder.py:92-95 | that episode gives "Next episode airs on " followed by the date in ISO form |
| Report.ShowList | imdb_reminder.py:118 | at least one show, none containing `,`; joined back with `,` they give the space-joined arguments |
| Report.ShowStatusOf | imdb_reminder.py:127-128 | every status found can be returned; a search with no result is the `IndexError` of `[0]`; otherwise the status is that of the show page at the first result made absolute |
| Report.StatusesOf | imdb_reminder.py:125-129 | a success holds one status per show, in order, each the status of its show |
| Report.FetchStatus | imdb_reminder.py:127-128 | one pass of the loop gives the show's status |
| Report.CollectStatuses | imdb_reminder.py:125-129 | the loop's result is `StatusesOf` the shows |
| Report.PrefixGrows | imdb_reminder.py:129 | a show with a status appends that status to the statuses of the shows before it |
| Report.PrefixFails | imdb_reminder.py:125-128 | a show without a status, after shows that all have one, ends the run with its error |
| Report.AllStatusesFound | imdb_reminder.py:125-129 | when every show has a status, the run's statuses are exactly those, in order |
| Report.FirstFailureWins | imdb_reminder.py:125-128 | the first show without a status gives the run's error, whatever the shows after it |
| Report.StatusText | imdb_reminder.py:135 | `str.format` of a status: `None` exactly for no status, the returned sentence otherwise |
| Report.Texts | imdb_reminder.py:135 | one text per status, in order |
| Report.Block | imdb_reminder.py:134-135 | one show's part of the message; `BlockLines` states its two lines and the blank line |
| Report.BlockLines | imdb_reminder.py:134-135 | a block is `TV Series Name: `, the title-cased show, a newline, `Status: `, the status and a blank line |
| Report.Blocks | imdb_reminder.py:133-135 | `zip`: as many blocks as the shorter list, the i-th for the i-th show and status |
| Report.Message | imdb_reminder.py:132-135 | the message: the blocks of the pairs, one after the other; `BuildMessage`, `MessageTruncates`, `MessageAppend` and `MessageOfOne` state it |
| Report.BuildMessage | imdb_reminder.py:132-135 | the loop's message is the blocks of all pairs, one after the other |
| Report.MessageTruncates | imdb_reminder.py:133 | only the first min(shows, statuses) pairs contribute to the message |
| Report.MessageAppend | imdb_reminder.py:133-135 | one more pair appends its block at the end of the message |
| Report.MessageOfOne | imdb_reminder.py:133-135 | a single pair gives a single block |
| Report.Run | imdb_reminder.py:115-135 | `main` up to sending: the first show's error, or the message built from the shows and their statuses |
| Report.TitleExample | imdb_reminder.py:134 | `breaking bad` is written `Breaking Bad` |
| Report.ExampleShowList | imdb_reminder.py:118 | the argument `breaking bad` is one show |
| Report.ExampleSeason | imdb_reminder.py:81-95 | an aired episode followed by one unaired on `12 Mar. 2024` gives that next episode |
| Report.ExampleStatus | imdb_reminder.py:125-128 | on the example site, every name found leads to that next episode |
| Report.ExampleStatuses | imdb_reminder.py:125-129 | on the example site, every list of shows gets that status for each show |
| Report.ExampleText | imdb_reminder.py:95 | the example's status is written `Next episode airs on 2024-03-12` |
| Report.ExampleOneShow | imdb_reminder.py:125-135 | any one show on the example site has that status, and the message is its single block |
| Report.ExampleMessage | imdb_reminder.py:118-135 | the whole example: the argument `breaking bad` gives the one status and the message of one block for `breaking bad` and `Next episode airs on 2024-03-12` |

## Left out

- HTTP fetching (`requests.get`, imdb_reminder.py:45, 64, 77): network I/O.
  Every fetched and parsed page is an input: a function from an address to
  the page's content. Network failures, timeouts and HTTP status codes are
  not modelled.
- lxml parsing and the XPath selections (imdb_reminder.py:46, 49, 69, 74, 81,
  86-87, 92-93): a foreign library over HTML. Each selection is given as its
  result:
  - the search result links;
  - the subtext anchor texts;
  - the latest-season links;
  - the episode rows, each with whether it holds an `add-image-container`
    span and the texts of its airdate element.
- `send_email` and SMTP, STARTTLS and login (imdb_reminder.py:98-112): network
  I/O. `Report.Run` returns the message that would be mailed.
- Config loading, argparse and logging setup (imdb_reminder.py:11-31):
  process-level I/O. The shows arguments are a parameter of `Report.Run`.
  The email address is not used by the modelled part.
- The `print` and `logging` calls in `main` (imdb_reminder.py:121-138):
  console and file output.
- `PyStr`: `str.isdigit`, `str.isspace`/`str.strip` and `str.title` are
  modelled on ASCII characters only. The whitespace set includes the
  separators `\x1c`-`\x1f`. Unicode digits, letters and spaces are not
  modelled.
- `Airdate.ParseAirdate`: `strptime` is modelled for the one fixed format and
  the C locale's English month abbreviations. Locale-dependent names are not
  modelled.
- `Airdate.IsoDate`: always writes the year zero-padded to four digits.
  Some platforms' `strftime` write years below 1000 without the padding.
- `ShowUrl.SearchUrl`: the percent-encoding that `requests` applies to
  characters that may not appear in a URL is not modelled. The address is
  the one the script formats.
