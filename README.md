# A verified model of the NBA player scraper (`data_collector.py`)

This project models how the scraper in `data_collector.py` collects
basketball players from basketball-reference.com, in two phases. Each
phase is stated and proved in Dafny.

- **Roster crawl** (`get_all_players_base_info`, module `Roster`). The
  crawl fetches the index page of each letter `a`..`z`. Every table row
  that has all five wanted cells becomes a *stub*: the name, the first and
  last season, the birth date, the colleges and, when the name links to
  one, the profile URL.
- **Detail crawl** (`get_player_info`, module `DetailCrawl`). The crawl
  fetches the profile page of every stub in order. Each page answered with
  200 is parsed into a *record* (`parse_player_webpage`, module
  `PlayerParser`). The crawl can be stopped with Ctrl-C, and the records
  kept so far are then written out.

The support modules model what the code relies on:

- `Text`: Python's `str.strip`, `str.find`, `str.split`, `str.join`,
  slicing with negative and out-of-range bounds, and `str.splitlines`.
- `Dom`: the parsed HTML as BeautifulSoup presents it. An element is the
  text nodes beneath it, and `get_text(sep, strip=True)` strips each node,
  drops the blank ones and joins the rest. A cell has a tag and a
  `data-stat` attribute; a table has body rows and footer rows.
- `Seqs`: generic sequence helpers (first and last match, a map that
  stops at the first failure, dropping absent values).
- `Wrappers`: `Option` and `Result`.

The network is the parameter `fetch`, a function from URL to response.
Every exception the model covers is a `Crash` value in a `Result`
failure. No handler catches these exceptions, so each one ends its crawl
before anything is written. A `KeyboardInterrupt` is the `Run` value
`InterruptedAfter(k)`: the first `k` entries are handled and the rest are
not.

Behaviours of the code that the model keeps as written:

- A page without a per-game table raises `AttributeError` at
  `data_collector.py:158`, where the footer row is looked up on the missing
  table, so `ParsePage` fails for it (`PlayerParser.MissingPerGameTableRaises`).
- Height and weight are the **last** matching spans, because each match
  overwrites the previous one (lines 119-124).
- A row becomes a stub only when all five cells are present, the colleges
  cell included (line 39).
- The ten-second pause of the roster crawl follows only a page answered
  with 200 (line 53).
- A stub without `profile_url` raises `KeyError` at line 74. The handler
  at line 82 catches only `KeyboardInterrupt`, so nothing is written.
- An interrupted detail crawl writes the output file twice, at lines 83-84
  and 86-87, with the same contents.

## Model

| member | source | states |
|---|---|---|
| Text.Strip | data_collector.py:44 | `strip()` returns the slice of the input left after its leading and trailing whitespace; everything cut off is whitespace; the result is empty exactly when the input is all whitespace |
| Text.StripIdempotent | data_collector.py:109 | stripping twice is stripping once |
| Text.StripKeepsNonSpace | data_collector.py:105-106 | a character that is not whitespace survives `strip()` |
| Text.Find | data_collector.py:106-107 | `find` returns the lowest index where the pattern occurs, and -1 exactly when it occurs nowhere |
| Text.ContainsChar | data_collector.py:103 | `c in s` for one character holds exactly when `c` occurs in `s` |
| Text.Split | data_collector.py:108 | `split(sep)` gives at least one piece; no piece contains `sep`; joining the pieces with `sep` gives the input back |
| Text.SplitJoinChar | data_collector.py:44 | splitting on a character undoes joining with it when no part contains that character |
| Text.JoinKeepsOut | data_collector.py:107-108 | a character in no part and not in the separator is not in the joined text |
| Text.FindCommaSpaceAfter | data_collector.py:108 | in `a + ", " + t` with no ", " inside `a`, the first ", " is the one right after `a` |
| Text.SplitJoinCommaSpace | data_collector.py:108 | `split(', ')` undoes joining with ", " when no part contains ", " |
| Text.SliceIndex | data_collector.py:108 | a slice bound in range is kept; a negative one counts from the end; one beyond the length becomes the length, and one below minus the length becomes 0 |
| Text.Slice | data_collector.py:108 | `s[a:b]` is the text between the normalised bounds, and empty when they cross |
| Text.LineEnd | data_collector.py:133 | the first line boundary, with no boundary before it |
| Text.SplitLines | data_collector.py:133 | `splitlines()` is empty exactly for the empty string; the first line is the text up to the first boundary; no line contains a boundary |
| Text.LineEndAfter | data_collector.py:133 | the first boundary of a break-free text followed by a boundary is at the end of that text |
| Text.SplitLinesOneLine | data_collector.py:133 | a non-empty text without boundaries is one line |
| Text.SplitLinesAtBreak | data_collector.py:133 | a one-character boundary (a `\r` only when no `\n` follows) ends the line in front of it, and the lines after it are those of the rest |
| Text.SplitLinesAtCrLf | data_collector.py:133 | `\r\n` is one boundary: it ends the line in front of it, and the lines after it are those of the rest |
| Dom.StrippedPieces | data_collector.py:44 | the stripped, non-blank strings: no more than the inputs, each non-empty and stripped |
| Dom.StrippedPiecesEmpty | data_collector.py:44 | nothing is kept exactly when every string is blank |
| Dom.StrippedPiecesOfStripped | data_collector.py:44 | strings already stripped and non-blank are all kept unchanged |
| Dom.StrippedPiecesSingle | data_collector.py:44 | one string is kept, stripped, exactly when it is not blank |
| Dom.StrippedPiecesAppend | data_collector.py:44 | the strings kept from two runs are those kept from the first followed by those kept from the second; with the single-string lemma this fixes the result for every input, blank and non-blank strings mixed |
| Dom.JoinStrippedPieces | data_collector.py:40-44 | joined stripped pieces form a stripped text that is empty exactly when there are no pieces |
| Dom.GetText | data_collector.py:40-43 | `get_text(strip=True)` never starts or ends with whitespace |
| Dom.GetTextEmpty | data_collector.py:44 | the text is empty exactly when every text node is blank |
| Dom.GetTextSingle | data_collector.py:95 | an element with one stripped, non-blank text node has that text |
| Dom.Texts | data_collector.py:99 | one text per element, in order, each that element's `get_text(strip=True)` |
| Dom.FindCell | data_collector.py:141-142 | `row.find(tag, {'data-stat': s})` returns the first cell of the row with that tag and stat, and nothing exactly when no cell has both |
| Roster.LetterUrls | data_collector.py:9-11 | one index URL per letter, in alphabet order, each built from the URL template |
| Roster.LetterUrlsPrefix | data_collector.py:19-20 | the URLs of the first letters are a prefix of those of all letters |
| Roster.Colleges | data_collector.py:44 | every college is non-empty, stripped and free of commas; a blank cell gives none |
| Roster.CollegesOfNames | data_collector.py:44 | a cell whose text nodes are clean college names gives back exactly those names, in order |
| Roster.StrippedInterleave | data_collector.py:44 | in a cell of names separated by ", " text nodes, `get_text(strip=True)` keeps each separator as "," |
| Roster.SplitLinked | data_collector.py:44 | the text of such a cell splits at "," into the first name, then for every further name a blank piece, an empty piece and the name behind a space |
| Roster.StrippedLinkedPieces | data_collector.py:44 | stripping those pieces and dropping the blank ones leaves exactly the names |
| Roster.CollegesOfLinkedNames | data_collector.py:44 | round trip for the usual markup: a cell of clean college links separated by ", " text nodes, whose text reads "a, ,, b", gives back exactly the names, in order |
| Roster.SplitCommaSpace | data_collector.py:44 | names joined with ", " and split at "," give the first name, then every other name with a leading space |
| Roster.ProfileUrl | data_collector.py:46-48 | no link gives no URL; a link with `href` gives the site root followed by the `href`; a link without `href` raises `KeyError` |
| Roster.MakeStub | data_collector.py:39-50 | a complete row's stub succeeds exactly when its profile URL does; its name, years and birth date are the cells' `get_text(strip=True)`, its colleges are `Colleges` of the colleges cell, its URL is the profile URL; the stub is clean |
| Roster.RowStub | data_collector.py:32-50 | a row adds nothing exactly when a cell is missing; it adds its stub exactly when it is complete and the stub succeeds |
| Roster.PageStubs | data_collector.py:28-50 | a page raises exactly when one of its rows does, and then with the exception of the first row that raises; otherwise it gives at most one stub per row, each clean |
| Roster.LettersStubs | data_collector.py:19-55 | no letters give no stubs; every stub gathered is clean: stripped texts and college names that are non-empty, stripped and free of commas |
| Roster.PageStubsSnoc | data_collector.py:28-50 | a page's stubs are those of all rows but the last, then the last row's stub if it is complete |
| Roster.PageStubsAreCompleteRows | data_collector.py:28-50 | a page's stubs are the stubs of its complete rows, one each, in document order |
| Roster.PageCrashesOnMissingHref | data_collector.py:47-48 | a complete row whose name links without `href` makes the page raise |
| Roster.LettersStubsPrefix | data_collector.py:19-50 | stubs of earlier letters come first: those of the first `m` letters are a prefix of those of the first `n` |
| Roster.LettersStubsStep | data_collector.py:19-55 | one more letter adds its page's stubs when it is answered with 200, nothing otherwise, and an exception on its page ends the crawl |
| Roster.FailedLetterAddsNothing | data_collector.py:25-55 | a letter page answered with a status other than 200 adds no stub |
| Roster.LettersStubsFailurePersists | data_collector.py:19-50 | an exception on one letter is the exception of the whole crawl |
| Roster.CrawlRoster | data_collector.py:8-55 | the crawl gives the stubs of every letter answered with 200; the letter URLs are requested in order; all of them are requested when the crawl succeeds, and on an exception they stop at the letter that raised, after one pause per earlier page answered with 200 |
| Roster.CrawlStopsAt | data_collector.py:19-55 | where a letter's page raises, the crawl ends with that exception, having requested the URLs up to that letter and paused once per earlier page answered with 200 |
| Roster.CollectPage | data_collector.py:28-50 | the row loop gives exactly the page's stubs, or its first exception |
| PlayerParser.PlayerName | data_collector.py:95 | the name succeeds exactly when an `h1` with a `span` exists, and is then that span's `get_text(strip=True)`; otherwise it raises |
| PlayerParser.PlayerNameOfSpan | data_collector.py:95 | a span holding one clean text node gives that text as the name |
| PlayerParser.StripEach | data_collector.py:109 | each string is stripped and none is dropped |
| PlayerParser.Nicknames | data_collector.py:102-111 | there are no nicknames exactly when no paragraph string holds a `(`; otherwise they are the ", "-pieces of the parenthesised part of the first such paragraph's stripped text, each stripped |
| PlayerParser.StripEachStripped | data_collector.py:109 | stripping strings that are already stripped changes none of them |
| PlayerParser.ParenthesisedJoin | data_collector.py:105-108 | names free of `)`, joined with ", " inside parentheses after a parenthesis-free prefix, are exactly what the slice takes out |
| PlayerParser.StripSplitJoin | data_collector.py:108-109 | stripped names without ", ", joined with ", ", come back unchanged from `split(', ')` and `strip()` |
| PlayerParser.NicknamesOfStripped | data_collector.py:103-108 | the first paragraph with a `(`, when its text is already stripped, is sliced and split as it stands |
| PlayerParser.NicknamesOfNames | data_collector.py:103-109 | round trip: when the first paragraph with a `(` reads `a(n1, n2, ...)c` with no parenthesis in `a` and each name stripped and free of `)` and ", ", the nicknames are exactly n1, n2, ... |
| PlayerParser.Parenthesised | data_collector.py:106-108 | the text strictly between the first `(` and the first `)` when `)` comes later; empty when `)` comes first; without `)`, the text after `(` less its last character |
| PlayerParser.ParenthesisedClosed | data_collector.py:106-108 | the text between the first `(` and a following first `)` is taken |
| PlayerParser.ParenthesisedUnclosed | data_collector.py:106-108 | without a `)` the end index is -1, so the text after `(` loses its last character |
| PlayerParser.ParenthesisedReversed | data_collector.py:106-108 | a `)` before the first `(` gives the empty text |
| PlayerParser.NicknameTextHasParenthesis | data_collector.py:103-106 | the `(` that selected the paragraph survives `strip()` |
| PlayerParser.LastText | data_collector.py:119-124 | the kept text is absent exactly when no text matches; otherwise it is one of the texts and it matches |
| PlayerParser.LastTextIsLast | data_collector.py:119-124 | the kept text is the last matching one |
| PlayerParser.LastTextSnoc | data_collector.py:119-124 | one more text replaces the kept one exactly when it matches |
| PlayerParser.Measurements | data_collector.py:114-127 | the loop leaves the last span with "-" as height and the last span with "lb" and no "-" as weight |
| PlayerParser.Position | data_collector.py:130-134 | no "Position:" label gives no position; a label whose parent has fewer than three children raises `IndexError`; a third child that is an element raises; a position is non-empty, stripped and not the bullet |
| PlayerParser.PositionIsFirstLine | data_collector.py:133 | the position is the first line, stripped, that is neither blank nor the bullet |
| PlayerParser.PositionWithoutLineRaises | data_collector.py:133 | a position text with only blank and bullet lines raises `IndexError` |
| PlayerParser.TeamOf | data_collector.py:141-143 | a totals row succeeds exactly when it has both the `team_id` cell and the `season` header, and gives the text of each |
| PlayerParser.Teams | data_collector.py:137-144 | no totals table gives no teams; otherwise one entry per body row, in order, or the exception of the first row that raises |
| PlayerParser.CollectTeams | data_collector.py:137-144 | the teams loop gives exactly the teams, or the first row's exception |
| PlayerParser.StatMap | data_collector.py:151 | the map succeeds exactly when every `td` has a `data-stat`; its keys are exactly the `td` stats |
| PlayerParser.StatMapLastWins | data_collector.py:151 | a key's value is the text of the last `td` carrying that key |
| PlayerParser.SeasonRow | data_collector.py:151-152 | a per-game row has the keys of its statistics plus "season", the `year_id` text under "season" and its statistics under the other keys; a row without `year_id` raises |
| PlayerParser.SeasonStats | data_collector.py:147-154 | no per-game table gives no seasons; otherwise it succeeds exactly when every body row does, with one map per body row, in order, each holding "season", and fails with the exception of the first row that raises |
| PlayerParser.CollectSeasonStats | data_collector.py:147-154 | the season loop gives exactly the season statistics, or the first row's exception |
| PlayerParser.CareerStats | data_collector.py:157-161 | a missing per-game table raises; no footer row gives an empty map; otherwise the first footer row's statistics |
| PlayerParser.ParsePage | data_collector.py:90-163 | a page that parses has a per-game table |
| PlayerParser.ParsePageSucceeds | data_collector.py:90-163 | a page parses exactly when the name, position, teams, seasons and career rules all succeed |
| PlayerParser.ParsePageRaises | data_collector.py:90-163 | a page that does not parse raises the exception of the first rule that raises, in the order name, position, teams, seasons, career |
| PlayerParser.ParsePageFields | data_collector.py:90-163 | a parsed record is the name, the accolade texts, the nicknames, the last height and weight spans, the position, the teams, the season statistics and the career line, each as its rule gives it; so one accolade per bling item, nicknames exactly when a paragraph holds `(`, a position exactly when a label exists, one team per totals row, one season per per-game row with "season", an empty career line without a footer |
| PlayerParser.MissingPerGameTableRaises | data_collector.py:148-158 | without a per-game table the page raises at the career footer instead of giving empty statistics |
| PlayerParser.ParsePlayerPage | data_collector.py:90-163 | the parser method computes the record specified field by field |
| DetailCrawl.Handled | data_collector.py:73-82 | a completed run handles every entry; an interrupted one handles the first `k` |
| DetailCrawl.Gathered | data_collector.py:73-81 | the records gathered from the first `n` entries are at most `n` |
| DetailCrawl.GatheredStep | data_collector.py:73-81 | one more linked entry adds its parsed page when it is answered with 200 and nothing otherwise |
| DetailCrawl.GatheredParsesOkPages | data_collector.py:73-81 | when every entry is linked, the crawl parses each page answered with 200, in order, and the first page that fails decides the exception |
| DetailCrawl.UnlinkedEntryRaises | data_collector.py:74 | an entry without `profile_url` among those handled makes the crawl raise |
| DetailCrawl.GatheredFailurePersists | data_collector.py:72-81 | once an exception is raised, the crawl ends with it |
| DetailCrawl.GatheredPrefix | data_collector.py:72-84 | what an interrupted crawl keeps is a prefix of what the full crawl gathers |
| DetailCrawl.CrawlDetails | data_collector.py:62-87 | the outcome is the crawl of the entries the run handles; an exception writes nothing; completion writes the records once; an interrupt writes them twice |
| DetailCrawl.CollectRecords | data_collector.py:72-81 | the loop over the first entries gives exactly their crawl, or its first exception |

## Left out

- HTTP: the session, its `User-Agent` header and the request itself are left out. Each response is the value of the `fetch` parameter for its URL, so a repeated request always gets the same answer.
- Pauses: `time.sleep(10)` is only counted (`Roster.CrawlRoster`'s `sleeps`), and the pause in the detail crawl is not modelled. Timing does not change any result.
- `print` calls are left out because they produce no data.
- JSON files are left out. The roster is passed to the detail crawl as stubs, and the detail output is the sequence of written record lists. The JSON round trip between the two phases is assumed to keep the stubs intact.
- HTML parsing is left out. BeautifulSoup's output is abstracted to the values the code selects: `IndexPage` rows and `PlayerPage` fields. CSS selector matching is not modelled.
- The unused `pandas` import and the module-level call at line 168 are left out.
- Records use `map` for statistics and an `Option` for the position, so the order of dict keys is not modelled. A page without a "Position:" label gives `None`, where the source omits the key.
- PlayerParser.Nicknames: each paragraph is seen through its `.string`, and that string is taken to be a plain text node whose `get_text(strip=True)` is the string stripped. A paragraph whose only string is a comment, or the text of a `<script>`, `<rt>` or `<rp>`, is selected by `find(string=...)` while `get_text` skips that string. For such a paragraph the source gives `[""]`, but the model reads nicknames from the string.
- PlayerParser.Position: the `TypeError` raised when the third child is an element (`Tag.strip` is looked up as a child tag) is modelled as the failure `PositionChildNotText`.
- Text.IsSpace: it covers Python's whitespace characters. Unicode handling beyond `isspace` and the `splitlines` line boundaries is not modelled.
- DetailCrawl.CrawlDetails: an interrupt is taken to arrive between entries. An interrupt during a request or a parse loses only that entry, which is what `InterruptedAfter(k)` with the next `k` gives.
- Exceptions other than the ones listed in `Dom.Crash` are not modelled. Examples are network errors and JSON decoding errors.
