# Document-analyzer match-log parser, modelled in Dafny

Document-analyzer reads a shared document holding the log of a group's
Among Us sessions: a date heading (`h2`) per session, a `第N試合` heading
(`h3`) per match, and one paragraph per match of `key:value` lines
(マップ, 参加者, インポスター, 勝利, 概要), followed after a 【動画】 line by
one `name視点:[title](url)` line per video. The program is meant to turn
them into match records and to place the members in fixed spreadsheet
columns. As written, it goes less far: main.ts `test` walks the markdown
tokens, checks each paragraph's `key:value` lines and logs the object it
reads, and storage.ts `write` computes the member columns and logs them.
Nothing calls `parseToMatchRawData` or `getMatchInfo`, and the row
assembly and the sheet write are commented out. The model covers the
functions that exist, whether or not the entry points call them.

This project models the pure text-processing core of the program:

- `Parser` (src/parser.ts): the match heading, the split of a paragraph at
  its 【動画】 line, the `key:value` splitter, the raw record and its
  required keys, the video entries, and the final `MatchInfo`.
- `LogPass` (src/main.ts): that file's own heading and line helpers,
  including the splitter that throws, the raw-record builder that throws,
  and the `forEach` over markdown tokens, written as a fold over
  `(enableTag, dateText, matchCount)`.
- `Storage` (src/storage.ts): the 11-column member row and the token
  window `read` returns.

Support modules:

- `Text`: the JavaScript string and array operations used, with their
  ECMAScript meaning. This covers `split`, `join`, `trim` and its
  whitespace set, `slice` with its clamping, `findIndex` with its -1, and
  `map` with a throwing callback.
- `Ordinal` and `MovieText`: the three regular expressions, written out
  with JavaScript's match order: leftmost start, greedy `\d+`, lazy `.+?`
  and `.*?`, and `.` stopping at line terminators.
- `Record`: a JavaScript object built by `result[key] = value` line by line.
- `Wrappers` and `Errors`: `Option`, `Result`, and one error per `throw`
  of the source.

A `throw` becomes a `Failure`, a `null` becomes `None`, and a markdown-it
token is reduced to its type, tag and content.

## Model

| member | source | states |
|---|---|---|
| Text.FindIndex | src/parser.ts:30 | the first index whose element satisfies the predicate, or none when no element does |
| Text.FindIndexOrMinusOne | src/main.ts:115 | `findIndex`: -1 exactly when no element matches, otherwise the first match |
| Text.Slice | src/main.ts:116 | `slice`: the result has the length between the clamped bounds and holds the elements from the clamped start on; `slice(-1)` of a non-empty array is its last element |
| Text.SliceBound | src/storage.ts:17 | a `slice` bound: taken as is inside the array, counted from the end when negative, and clamped to the array |
| Text.Between | src/storage.ts:14-17 | the slice from just after the first element meeting one test up to and including the first meeting another: empty when nothing meets the second or when the first comes at or after it; it ends at the second test's first match and holds no earlier one |
| Text.IndexOfChar | src/parser.ts:42 | the position of the first occurrence of a character, or none when it is absent |
| Text.MapAll | src/parser.ts:163-165 | `map` with a throwing callback: succeeds exactly when every element converts, element for element in order; otherwise the error of the first failing element |
| Text.RunLength | src/parser.ts:147 | the length of the maximal run of characters of a class starting at a position |
| Text.Split | src/parser.ts:42 | `split` on one character: one part more than there are separators, no part holds the separator, and joining the parts gives the text back |
| Text.SplitJoin | src/parser.ts:166 | splitting a join of separator-free parts gives back the same parts, so split and join are inverse |
| Text.SplitAtFirst | src/parser.ts:42-49 | a split is the text before the first separator followed by the split of the rest |
| Text.SplitCons | src/parser.ts:42 | a separator-free text, the separator and a tail split into that text followed by the split of the tail |
| Text.Join | src/parser.ts:49 | `join`: the text starts with the first part, and with two parts or more the separator follows it |
| Text.Contains | src/parser.ts:23 | `includes`: the empty pattern is always included, and a pattern longer than the text never is |
| Text.TrimStart | src/parser.ts:47 | the first half of `trim`: drops exactly the leading whitespace, so what is dropped is all whitespace and the result does not start with whitespace |
| Text.TrimEnd | src/parser.ts:47 | the second half of `trim`: drops exactly the trailing whitespace |
| Text.Trim | src/parser.ts:47 | `trim`: a slice of the text with only whitespace outside it and none at either of its ends |
| Text.TrimKeeps | src/parser.ts:47 | `trim` leaves a text without outer whitespace unchanged |
| Text.TrimUnique | src/parser.ts:47 | any slice with only whitespace outside it and none at its ends is the one `trim` returns |
| Text.TrimIdempotent | src/parser.ts:47 | trimming twice is trimming once |
| Text.TrimIsEndOfStart | src/parser.ts:47 | `trim` is `trimEnd` after `trimStart`: dropping the leading and then the trailing whitespace gives the same text |
| Ordinal.DecimalValue | src/parser.ts:18 | `parseInt(…, 10)` of the digit group (also main.ts:9): the value is zero exactly when every digit is 0 |
| Ordinal.LeadingZero | src/parser.ts:18 | a leading 0 in the digit group does not change the number read |
| Ordinal.DecimalOfValue | src/parser.ts:18 | a numeral without leading zeros is the decimal numeral of its own value, so reading and writing numbers are inverse |
| Ordinal.Decimal | src/parser.ts:18 | the decimal numeral of a number: non-empty, digits only, and its value is the number |
| Ordinal.SpanUnique | src/parser.ts:14 | a 第 starts at most one 第-digits-試合 match, because the digit run cannot stop early |
| Ordinal.OrdinalEndAt | src/parser.ts:14 | tries the pattern `第(\d+)試合` at one position; reports the match when there is one |
| Ordinal.FindOrdinal | src/parser.ts:14 | the leftmost position where `第(\d+)試合` matches, or none when it matches nowhere |
| Ordinal.OrdinalDigits | src/parser.ts:14-18 | none exactly when the text has no 第-digits-試合; otherwise the digits of the leftmost match |
| Ordinal.LeftmostDigits | src/parser.ts:14-18 | a match with no other match starting before it is the one reported, and its digit group is the result |
| Ordinal.SpanStopsAt | src/parser.ts:14 | a match starting before a 第 ends, 試合 included, before that 第 |
| Ordinal.NoSpanBefore | src/parser.ts:14 | a text with no match of its own, followed by 第, holds no match starting inside that text |
| Ordinal.DigitsOfHeading | src/parser.ts:14-18 | a text with the numeral of n between 第 and 試合, preceded by text holding no match of the pattern, yields the numeral of n |
| Parser.ExtractMatchCountAndMode | src/parser.ts:12-26 | throws exactly when there is no 第-digits-試合 (quoting the text); otherwise the value of the leftmost digit run, and hide-and-seek exactly when the text contains かくれんぼ |
| Parser.HeadingRoundTrip | src/parser.ts:12-26 | a heading written with match number n reads back as match n, whenever the text before its 第N試合 holds no 第-digits-試合 of its own (an earlier 第 such as in 第2部 is allowed) |
| Parser.SplitLogAndMovieParts | src/parser.ts:28-38 | without a 【動画】 line, all lines and no video lines; otherwise the lines before the first such line, that line, and the lines after it make up the input, and no earlier line mentions 【動画】 |
| Parser.LogPart | src/parser.ts:92-94 | the log lines of a paragraph (also main.ts:65-68): its '\n'-separated lines up to the first 【動画】 line, not included, or all of them when there is none |
| Parser.MoviePart | src/parser.ts:92-94 | the movie lines of a paragraph: its lines after the first 【動画】 line, or none when there is no such line |
| Parser.SeparateKeyAndValue | src/parser.ts:40-51 | null exactly when the line has no ':'; otherwise the trimmed text before the first ':' and the trimmed rest |
| Parser.FirstColonUnique | src/parser.ts:42 | a line has one first ':' |
| Parser.KeyValueAtFirstColon | src/parser.ts:40-51 | the key and value are fixed by the position of the first ':' |
| Parser.KeyValueRoundTrip | src/parser.ts:40-51 | a line written `key:value` with no ':' in the key reads back as trimmed key and value, later colons kept, and exactly as written when neither has outer whitespace |
| Record.Assign | src/parser.ts:98-101 | the assigned record: a key is present exactly when some line sets it, and holds the value the last such line set |
| Record.SetByExtend | src/parser.ts:98-101 | a key is set by lines plus one more line exactly when it is set by the lines or by that line |
| Record.LastSetToExtend | src/parser.ts:98-101 | a line setting another key does not change the last value of a key |
| Record.AssignLast | src/parser.ts:98-101 | the record of all lines is the record of all but the last, updated by the last |
| Record.AssignOrFail | src/main.ts:70-73 | with a throwing line reader: succeeds exactly when every line reads, giving the record of the non-throwing reader; otherwise the error of the first line that throws |
| Record.Collect | src/parser.ts:103-108 | one key-value pair per line that assigns one, and the line at each position lands right after those of the lines before it |
| Parser.AssignFields | src/parser.ts:98-101 | colon-less lines are skipped; a key is present exactly when some line sets it, with the value of the last line that does |
| Parser.CollectMovies | src/parser.ts:103-108 | one video entry per line with a ':', in document order, each holding its line's key and value |
| Parser.ParseToMatchRawData | src/parser.ts:70-114 | a record exactly when all of マップ, 参加者, インポスター, 勝利 and 概要 are set and 動画 is not set; each field is its key's last value; the video list is the collected entries; a line setting 動画 when there are video lines throws |
| MovieText.PovFrom | src/parser.ts:139-140 | the lazy search for 視点: the first group length from which the pattern matches |
| MovieText.ContributorName | src/parser.ts:139-143 | none exactly when no non-empty line-terminator-free prefix is followed by 視点; otherwise the shortest such prefix |
| MovieText.ShortestPovNameUnique | src/parser.ts:139-143 | the contributor name the pattern reports is unique |
| MovieText.UrlAtUnique | src/parser.ts:147 | with the scheme fixed, the greedy URL run has one end only |
| MovieText.SchemeLength | src/parser.ts:147 | the length of `https://` or `http://` exactly where the one or the other occurs, otherwise 0 |
| MovieText.SchemeHasNoSpace | src/parser.ts:147 | the matched scheme holds no whitespace |
| MovieText.TerminatorBlocks | src/parser.ts:147 | `.*?` cannot run over a line terminator, so no link spans one between its brackets |
| MovieText.UrlHasNoSpace | src/parser.ts:147 | a matched URL holds no whitespace |
| MovieText.UrlEndAt | src/parser.ts:147 | tries `https?://[^\s)]+\)` at one position; reports its end when it matches |
| MovieText.CloseFrom | src/parser.ts:147 | the nearest `]` after a `[` from which the rest of the link pattern matches |
| MovieText.LinkFrom | src/parser.ts:147-148 | the leftmost `[` from which the link pattern matches, with its nearest `]` |
| MovieText.LinkUrl | src/parser.ts:147-152 | none exactly when the link pattern matches nowhere; otherwise the URL group of the leftmost match, free of whitespace |
| MovieText.TrimmedLinkUrl | src/parser.ts:147-152 | the trimmed URL group: none exactly when the link pattern matches nowhere, otherwise the same URL the search reports |
| MovieText.LinkUrlOfFirstLink | src/parser.ts:147-152 | whenever the pattern's first match is a given one, its URL group is what the search returns |
| MovieText.FirstLinkUnique | src/parser.ts:147-148 | the leftmost match of the link pattern, with its nearest `]` and its URL end, is unique |
| Parser.GetMovieInfo | src/parser.ts:137-158 | throws exactly when the name text has no …視点 prefix (checked first) or the value text has no http(s) Markdown link; otherwise the shortest non-empty name and the link's URL |
| Parser.GetMatchInfo | src/parser.ts:161-182 | succeeds exactly when every video entry converts, one for one and in order, otherwise the first entry's error; date, number and mode come from the state, map, winner and overview from the record, and members and impostors are the ','-split of their fields |
| LogPass.ExtractMatchCount | src/main.ts:3-14 | fails on exactly the texts the parser.ts version fails on, with a message that does not quote the text, and otherwise gives the same number |
| LogPass.SeparateKeyAndValueOrThrow | src/main.ts:48-62 | throws exactly when the line has no ':'; otherwise the same key and value as the parser.ts splitter |
| LogPass.AssignOrThrow | src/main.ts:70-73 | throws on the first colon-less line; otherwise the same record as the parser.ts fold |
| LogPass.ParseStringToObject | src/main.ts:64-80 | throws exactly when a line before the first 【動画】 line lacks ':' (a blank line included); otherwise the record of those lines, lines from 【動画】 on ignored |
| LogPass.Step | src/main.ts:131-163 | heading_open sets the tag and heading_close clears it; under h2 an inline token sets only the date; under h3 it sets only the match number and throws without 第N試合; under any other tag it changes nothing and throws on a colon-less log line; other tokens change nothing |
| LogPass.Run | src/main.ts:125-163 | the loop over the tokens: a stretch with no inline token never throws and leaves the date and the match number as they were |
| LogPass.RunAppend | src/main.ts:131-163 | the loop over two stretches of tokens is the loop over the first continued by the loop over the second |
| LogPass.DatePersists | src/main.ts:143-151 | a stretch with no h2 heading, h3 headings included, leaves the date as it was |
| LogPass.MatchCountFromHeading | src/main.ts:148-151 | after a stretch the match number is the one it started with or the number of one of its inline tokens |
| LogPass.MainWindow | src/main.ts:115-116 | the loop input starts at the first token mentioning 試合ログ, that token included; with none it is the last token alone |
| LogPass.MatchLogPass | src/main.ts:115-163 | after a successful pass the match number is 0 or the number of some inline token's heading |
| LogPass.WindowMatchCount | src/main.ts:115-163 | the match number the loop window ends with is 0 or the number of some inline token of the whole list |
| LogPass.LogHeadingAborts | src/main.ts:115-116 | when the first token mentioning 試合ログ is inline text whose log lines lack a ':', the pass throws |
| LogPass.ColonlessLineFails | src/main.ts:64-80 | a single line without ':' or 【動画】 fails the colon check |
| LogPass.LogHeadingTextFails | src/main.ts:54-58 | the heading text 試合ログ itself fails the colon check |
| Storage.ColumnRow | src/storage.ts:38-44 | eleven columns, each the roster name when it is a single name among the participants, otherwise empty |
| Storage.ColumnRowIgnoresOrder | src/storage.ts:38-44 | the row depends only on which names take part, not on their order or repetitions |
| Storage.BlankColumns | src/storage.ts:38-44 | no participants gives eleven empty columns, and the array entries are always empty |
| Storage.AliasSpellingsRejected | src/storage.ts:26-36 | Marie, まりえ and こうすけ are not registered; ゆうやみ and すっちん are |
| Storage.RegisteredIn | src/storage.ts:32-33 | `Set.has`: a name is registered exactly when some roster entry is that single name; a roster of arrays only admits no name |
| Storage.Column | src/storage.ts:38-44 | a column is non-empty only for a single-name entry among the participants, and then holds that name; array entries are always empty |
| Storage.RosterColumns | src/storage.ts:32-44 | for any roster: throws exactly when some name is not a single-name entry, with the first such name; otherwise one column per entry holding the entry's name when it takes part |
| Storage.GetMemberColumnValues | src/storage.ts:23-46 | throws on the first name that is not a single-name roster entry; otherwise the eleven-column row |
| Storage.ListedExtendsRegistered | src/storage.ts:26-36 | every registered name is a listed spelling, and "Marie" is listed but not registered |
| Storage.RosterSpellingsNonEmpty | src/storage.ts:26 | no roster spelling is the empty string |
| Storage.IntendedColumn | src/storage.ts:38-44 | empty exactly when no participant uses a spelling of the column; otherwise a participant's name that is one of its spellings |
| Storage.FirstUnlisted | src/storage.ts:32-36 | the first name that no column spells, or none when every name is listed |
| Storage.IntendedRow | src/storage.ts:38-44 | one intended column per roster entry |
| Storage.GetMemberColumnValuesIntended | src/storage.ts:23-46 | every spelling is accepted; a column is empty exactly when none of its spellings take part, otherwise it shows the spelling used |
| Storage.ReadWindow | src/storage.ts:13-17 | empty without a （テンプレート） token or when it does not come after the 試合ログ token; otherwise from just after the first 試合ログ token (from the start if none) up to and including the first （テンプレート） token |
| Storage.WindowsAgree | src/storage.ts:13-17 | when 試合ログ comes first, the read window is the main.ts loop window without its 試合ログ token, cut after the template token |

## Notes on the code

Facts about the code that the model keeps:

- Only the ASCII ':' separates a key from its value, and only the ASCII ','
  separates names. The full-width '：' and '，' are not recognised.
- Fields come from the `key:value` lines of one paragraph; no heading
  level below h3 assigns fields. In main.ts a line under a tag other than
  h2 or h3 is only checked.
- A video line without a …視点 prefix throws. There is no fallback
  contributor label.
- Mode, winner and map are not checked against any vocabulary. 勝利 is
  stored as written.
- The window `read` returns includes the （テンプレート） token itself.
- Spelling variants in the roster are not accepted. See Findings.

## Findings

| source | as written | input that shows it | evidently intended | confidence | as-written member | corrected member |
|---|---|---|---|---|---|---|
| src/storage.ts:26-44 | `new Set(order)` holds each spelling array as one element, and `indexOf` of an array in a list of strings finds nothing; so a spelling of an array entry throws "not registered", and the four array columns are always empty | `["Marie"]` (or any spelling of 水金, ようじょ, Marie, Marie（こうすけ）) | every spelling of a roster entry is accepted, and the entry's column shows the spelling used | high; not executed | Storage.GetMemberColumnValues, Storage.ListedExtendsRegistered | Storage.GetMemberColumnValuesIntended |
| src/main.ts:115-116 | the loop starts at the first token mentioning 試合ログ, so for a heading it starts at the heading's own inline token, read with no enclosing tag; its text is then parsed as `key:value` lines and the colon check at main.ts:54-58 throws | a document whose match log opens with the heading `## 試合ログ` | the loop starts just after that token, as `read` in storage.ts:14 does with its `+ 1` | medium; not executed | LogPass.LogHeadingAborts, LogPass.LogHeadingTextFails | Storage.WindowsAgree, Storage.ReadWindow |

## Left out

- Network and host APIs: `UrlFetchApp`, `DocumentApp`, `ScriptApp` and
  `SpreadsheetApp`, and the header lookup in `write`. The token list is an
  input.
- markdown-it tokenisation: tokens are given, reduced to type, tag and
  content.
- `Logger.log` and `console.info`: output only.
- The `extractMatchInfo` stub, which returns `{}`, the `testError` helpers
  and the global exports of main.ts: no behaviour to model.
- The row assembly in `write`: it is commented out in the code.
- `parseInt` precision: a digit run is read as an unbounded natural
  number. Runs past 2^53 lose precision in the source.
- The `isNaN` branches after `parseInt`: a non-empty run of ASCII digits
  always parses, so these branches cannot be reached.
- A key named `__proto__` is stored as an ordinary field. In JavaScript
  the assignment goes to the prototype setter, which ignores a string
  value, so no such key exists afterwards. No required field has that name.
- `MatchRawData` keeps the five required fields and the videos only.
  parser.ts returns the whole parsed object, with any other key a log line
  set, but nothing in the modelled code reads those keys.
- The runtime type checks of `isMatchRawData`: they reduce to key presence
  plus the 動画 case, because every value assigned is a string.
- The type import of `MatchInfo` from `./main` and the field name
  `info.参加者` in storage.ts: compile-time issues with no behaviour of
  their own.
- main.ts `splitLogAndMovieParts` is character for character the parser.ts
  one, so it is modelled once, as `Parser.SplitLogAndMovieParts`.
- LogPass.MatchLogPass: its contract states only where the final match
  number comes from. The per-token behaviour is the contract of
  `LogPass.Step`.
