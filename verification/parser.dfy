/**
  The field-level parser of src/parser.ts: the match heading, the split of
  a paragraph into its log part and its movie part at the 【動画】 line, the
  `key:value` line splitter, the raw record keyed by the document's own
  Japanese field names, the movie entries, and the final `MatchInfo`.
 */
module Parser {
  import opened Wrappers
  import opened Errors
  import opened Text
  import opened Ordinal
  import opened MovieText
  import opened Record

  /** The game mode; `Label` is the string the source stores. */
  datatype Mode = Classic | HideAndSeek {
    function Label(): string {
      match this
      case Classic => "クラシック"
      case HideAndSeek => "かくれんぼ"
    }
  }

  /** The state a pass carries into `getMatchInfo`. */
  datatype State = State(enableTag: string, date: string, matchCount: nat, mode: Mode)

  const HideAndSeekKeyword: string := "かくれんぼ"
  const MovieKeyword: string := "【動画】"

  /** `extractMatchCountAndMode`: the value of the leftmost 第N試合 numeral,
      and the hide-and-seek mode exactly when the heading mentions it. */
  function ExtractMatchCountAndMode(text: string): (r: Result<(nat, Mode), Error>)
    ensures r.Failure? <==> !HasOrdinal(text)
    ensures r.Failure? ==> r.error == OrdinalMissing(Some(text))
    ensures r.Success? ==> exists i: nat, j: nat ::
      && LeftmostOrdinal(text, i, j)
      && AllDigits(text[i + 1..j])
      && r.value.0 == DecimalValue(text[i + 1..j])
    ensures r.Success? ==> (r.value.1 == HideAndSeek <==> Contains(text, HideAndSeekKeyword))
  {
    match OrdinalDigits(text)
    case None => Failure(OrdinalMissing(Some(text)))
    case Some(ds) =>
      var mode := if Contains(text, HideAndSeekKeyword) then HideAndSeek else Classic;
      Success((DecimalValue(ds), mode))
  }

  /** A heading "…第N試合…" reads back as match N, whatever follows it, as
      long as the text before the marker holds no match of its own. */
  lemma HeadingRoundTrip(pre: string, n: nat, post: string)
    requires !HasOrdinal(pre)
    ensures ExtractMatchCountAndMode(pre + "第" + Decimal(n) + "試合" + post).Success?
    ensures ExtractMatchCountAndMode(pre + "第" + Decimal(n) + "試合" + post).value.0 == n
  {
    DigitsOfHeading(pre, n, post);
  }

  predicate IsMovieHeader(line: string) {
    Contains(line, MovieKeyword)
  }

  /** `splitLogAndMovieParts`: the lines before the first 【動画】 line and the
      lines after it; that line itself belongs to neither part. Without such
      a line every line is a log line. */
  function SplitLogAndMovieParts(texts: seq<string>): (r: (seq<string>, seq<string>))
    ensures (forall i :: 0 <= i < |texts| ==> !IsMovieHeader(texts[i])) ==> r == (texts, [])
    ensures (exists i :: 0 <= i < |texts| && IsMovieHeader(texts[i])) ==>
      && |r.0| < |texts|
      && r.0 + [texts[|r.0|]] + r.1 == texts
      && IsMovieHeader(texts[|r.0|])
      && forall i :: 0 <= i < |r.0| ==> !IsMovieHeader(r.0[i])
  {
    match FindIndex(texts, IsMovieHeader)
    case None => (texts, [])
    case Some(i) =>
      assert texts == texts[..i] + [texts[i]] + texts[i + 1..];
      (texts[..i], texts[i + 1..])
  }

  /** The first ':' of `text` is at index `i`. */
  ghost predicate FirstColonAt(text: string, i: nat) {
    i < |text| && text[i] == ':' && ':' !in text[..i]
  }

  /** `separateKeyAndValue`: `None` (the source's `[null, null]`) exactly
      when the line has no ':'; otherwise the trimmed text before the first
      ':' and the trimmed rest, later colons kept. */
  function SeparateKeyAndValue(text: string): (r: Option<(string, string)>)
    ensures r.None? <==> ':' !in text
    ensures r.Some? ==> exists i: nat ::
      FirstColonAt(text, i) && r.value == (Trim(text[..i]), Trim(text[i + 1..]))
  {
    var parts := Split(text, ':');
    if |parts| < 2 then None
    else
      var i := IndexOfChar(text, ':').value;
      SplitAtFirst(text, ':', i);
      assert parts[1..] == Split(text[i + 1..], ':');
      assert FirstColonAt(text, i);
      Some((Trim(parts[0]), Trim(Join(parts[1..], ':'))))
  }

  lemma FirstColonUnique(text: string, i: nat, k: nat)
    requires FirstColonAt(text, i) && FirstColonAt(text, k)
    ensures i == k
  {
    assert forall j :: 0 <= j < i ==> text[..i][j] == text[j];
    assert forall j :: 0 <= j < k ==> text[..k][j] == text[j];
  }

  /** The key and value of a line are fixed by its first ':'. */
  lemma KeyValueAtFirstColon(text: string, i: nat)
    requires FirstColonAt(text, i)
    ensures SeparateKeyAndValue(text) == Some((Trim(text[..i]), Trim(text[i + 1..])))
  {
    assert text[i] == ':';
    var k: nat :| FirstColonAt(text, k) && SeparateKeyAndValue(text).value == (Trim(text[..k]), Trim(text[k + 1..]));
    FirstColonUnique(text, i, k);
  }

  /** A line written as `key:value` with no ':' in the key reads back as
      the trimmed key and the trimmed value, whatever colons the value
      holds; with no space at the ends of either, exactly as written. */
  lemma KeyValueRoundTrip(key: string, value: string)
    requires ':' !in key
    ensures SeparateKeyAndValue(key + ":" + value) == Some((Trim(key), Trim(value)))
    ensures NoOuterSpace(key) && NoOuterSpace(value) ==>
      SeparateKeyAndValue(key + ":" + value) == Some((key, value))
  {
    var text := key + ":" + value;
    assert text[..|key|] == key && text[|key|] == ':' && text[|key| + 1..] == value;
    KeyValueAtFirstColon(text, |key|);
    if NoOuterSpace(key) && NoOuterSpace(value) {
      TrimKeeps(key);
      TrimKeeps(value);
    }
  }

  /** The log-part `forEach` of `parseToMatchRawData`: lines without ':' are
      skipped and a later line overwrites the value of an earlier one with
      the same key. */
  function AssignFields(lines: seq<string>): (fields: map<string, string>)
    ensures forall k :: k in fields <==> SetBy(lines, SeparateKeyAndValue, k)
    ensures forall k :: k in fields ==> LastSetTo(lines, SeparateKeyAndValue, k, fields[k])
  {
    Assign(lines, SeparateKeyAndValue)
  }

  /** One entry of the movie part, before its texts are interpreted. */
  datatype MovieRawData = MovieRawData(nameText: string, urlMarkdownText: string)

  /** The number of lines of `lines` that hold a ':'. */
  function ColonLineCount(lines: seq<string>): nat {
    SetCount(lines, SeparateKeyAndValue)
  }

  /** The movie-part `forEach` of `parseToMatchRawData`: one entry per line
      with a ':', in document order, holding that line's key and value. */
  function CollectMovies(lines: seq<string>): (movies: seq<MovieRawData>)
    ensures |movies| == ColonLineCount(lines)
    ensures forall i :: 0 <= i < |lines| && ':' in lines[i] ==>
      && ColonLineCount(lines[..i]) < |movies|
      && SeparateKeyAndValue(lines[i]) == Some((movies[ColonLineCount(lines[..i])].nameText,
                                                movies[ColonLineCount(lines[..i])].urlMarkdownText))
  {
    var pairs := Collect(lines, SeparateKeyAndValue);
    seq(|pairs|, k requires 0 <= k < |pairs| => MovieRawData(pairs[k].0, pairs[k].1))
  }

  /** parser.ts `MatchRawData`: the five required fields as written and the
      movie entries. The source types 勝利 as a team but never checks it. */
  datatype MatchRawData = MatchRawData(
    mapName: string,
    participants: string,
    impostors: string,
    winner: string,
    overview: string,
    movies: seq<MovieRawData>)

  const MapKey: string := "マップ"
  const ParticipantsKey: string := "参加者"
  const ImpostorsKey: string := "インポスター"
  const WinnerKey: string := "勝利"
  const OverviewKey: string := "概要"
  const MovieListKey: string := "動画"

  /** The five keys `isMatchRawData` demands. */
  const RequiredKeys: seq<string> := [MapKey, ParticipantsKey, ImpostorsKey, WinnerKey, OverviewKey]

  /** The log lines of a paragraph: its lines up to, not including, the
      first 【動画】 line, or all of them when there is none. */
  function LogPart(text: string): (r: seq<string>)
    ensures r <= Split(text, '\n')
    ensures forall i :: 0 <= i < |r| ==> '\n' !in r[i] && !IsMovieHeader(r[i])
    ensures |r| < |Split(text, '\n')| ==> IsMovieHeader(Split(text, '\n')[|r|])
  {
    var lines := Split(text, '\n');
    var r := SplitLogAndMovieParts(lines).0;
    assert r == lines[..|r|];
    r
  }

  /** The movie lines of a paragraph: its lines after the first 【動画】
      line, or none when there is no such line. */
  function MoviePart(text: string): (r: seq<string>)
    ensures |r| < |Split(text, '\n')| || r == []
    ensures forall i :: 0 <= i < |r| ==> '\n' !in r[i]
    ensures r != [] ==> |LogPart(text)| + 1 + |r| == |Split(text, '\n')|
    ensures |LogPart(text)| < |Split(text, '\n')| ==>
      r == Split(text, '\n')[|LogPart(text)| + 1..]
  {
    var lines := Split(text, '\n');
    var parts := SplitLogAndMovieParts(lines);
    if |parts.0| < |lines| then
      assert lines[|parts.0| + 1..] == parts.1;
      parts.1
    else parts.1
  }

  /** `parseToMatchRawData`. A record (`Some`) exactly when every required
      key is set by a log line and no log line sets 動画; each field is the
      value of the last log line setting its key. A log line setting 動画
      turns the movie list into a string: pushing the first movie entry then
      throws, and with no movie entry the type check answers `null`. */
  function ParseToMatchRawData(text: string): (r: Result<Option<MatchRawData>, Error>)
    ensures r.Failure? <==>
      SetBy(LogPart(text), SeparateKeyAndValue, MovieListKey) && ColonLineCount(MoviePart(text)) > 0
    ensures r.Failure? ==> r.error == MovieListClobbered
    ensures r.Success? ==> (r.value.Some? <==>
      && !SetBy(LogPart(text), SeparateKeyAndValue, MovieListKey)
      && forall k :: k in RequiredKeys ==> SetBy(LogPart(text), SeparateKeyAndValue, k))
    ensures r.Success? && r.value.Some? ==>
      && LastSetTo(LogPart(text), SeparateKeyAndValue, MapKey, r.value.value.mapName)
      && LastSetTo(LogPart(text), SeparateKeyAndValue, ParticipantsKey, r.value.value.participants)
      && LastSetTo(LogPart(text), SeparateKeyAndValue, ImpostorsKey, r.value.value.impostors)
      && LastSetTo(LogPart(text), SeparateKeyAndValue, WinnerKey, r.value.value.winner)
      && LastSetTo(LogPart(text), SeparateKeyAndValue, OverviewKey, r.value.value.overview)
      && r.value.value.movies == CollectMovies(MoviePart(text))
      && |r.value.value.movies| == ColonLineCount(MoviePart(text))
  {
    var fields := AssignFields(LogPart(text));
    var movies := CollectMovies(MoviePart(text));
    if MovieListKey in fields then
      if |movies| > 0 then Failure(MovieListClobbered) else Success(None)
    else if forall k | k in RequiredKeys :: k in fields then
      Success(Some(MatchRawData(
        fields[MapKey], fields[ParticipantsKey], fields[ImpostorsKey],
        fields[WinnerKey], fields[OverviewKey], movies)))
    else Success(None)
  }

  /** parser.ts `MovieInfo`. */
  datatype MovieInfo = MovieInfo(contributorName: string, urlText: string)

  /** `getMovieInfo`: the contributor is the shortest non-empty text before
      視点 at the start of the name text, the URL the group of the first
      Markdown http(s) link of the value text; either missing throws, the
      name first. */
  function GetMovieInfo(raw: MovieRawData): (r: Result<MovieInfo, Error>)
    ensures r.Failure? <==> !HasPov(raw.nameText) || !HasLink(raw.urlMarkdownText)
    ensures r.Failure? && !HasPov(raw.nameText) ==> r.error == ContributorMissing(raw.nameText)
    ensures r.Failure? && HasPov(raw.nameText) ==> r.error == UrlMissing(raw.urlMarkdownText)
    ensures r.Success? ==> ShortestPovName(raw.nameText, r.value.contributorName)
    ensures r.Success? ==> |r.value.contributorName| >= 1
    ensures r.Success? ==> FirstLinkUrl(raw.urlMarkdownText, r.value.urlText)
  {
    match ContributorName(raw.nameText)
    case None => Failure(ContributorMissing(raw.nameText))
    case Some(name) =>
      match TrimmedLinkUrl(raw.urlMarkdownText)
      case None => Failure(UrlMissing(raw.urlMarkdownText))
      case Some(url) => Success(MovieInfo(name, url))
  }

  /** parser.ts `MatchInfo`. */
  datatype MatchInfo = MatchInfo(
    date: string,
    matchCount: nat,
    mode: Mode,
    mapName: string,
    winner: string,
    movies: seq<MovieInfo>,
    overview: string,
    members: seq<string>,
    impostors: seq<string>)

  /** `s` split at every ',' with nothing trimmed. */
  ghost predicate CommaSplitOf(names: seq<string>, s: string) {
    && |names| == multiset(s)[','] + 1
    && (forall i :: 0 <= i < |names| ==> ',' !in names[i])
    && Join(names, ',') == s
  }

  /** `getMatchInfo`: date, match number and mode come from the state, the
      scalar fields from the raw record, the movie entries one for one, and
      the member and impostor lists are the ','-split of their fields. */
  function GetMatchInfo(state: State, raw: MatchRawData): (r: Result<MatchInfo, Error>)
    ensures r.Success? <==> forall i :: 0 <= i < |raw.movies| ==> GetMovieInfo(raw.movies[i]).Success?
    ensures r.Success? ==>
      && r.value.date == state.date
      && r.value.matchCount == state.matchCount
      && r.value.mode == state.mode
      && r.value.mapName == raw.mapName
      && r.value.winner == raw.winner
      && r.value.overview == raw.overview
    ensures r.Success? ==> |r.value.movies| == |raw.movies|
    ensures r.Success? ==> forall i :: 0 <= i < |raw.movies| ==>
      GetMovieInfo(raw.movies[i]) == Success(r.value.movies[i])
    ensures r.Success? ==> CommaSplitOf(r.value.members, raw.participants)
    ensures r.Success? ==> CommaSplitOf(r.value.impostors, raw.impostors)
    ensures r.Failure? ==> exists i ::
      && 0 <= i < |raw.movies|
      && GetMovieInfo(raw.movies[i]) == Failure(r.error)
      && forall j :: 0 <= j < i ==> GetMovieInfo(raw.movies[j]).Success?
  {
    var movies :- MapAll(raw.movies, GetMovieInfo);
    Success(MatchInfo(
      state.date, state.matchCount, state.mode,
      raw.mapName, raw.winner, movies, raw.overview,
      Split(raw.participants, ','), Split(raw.impostors, ',')))
  }
}
