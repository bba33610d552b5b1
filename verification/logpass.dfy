/**
  The match-log pass of src/main.ts: its own copies of the heading and line
  helpers (the line splitter here throws where the parser.ts one returns
  nulls), and the `forEach` over the markdown-it tokens as a fold with the
  state (enableTag, dateText, matchCount). Inline content under an `h2`
  sets the date, under an `h3` the match number, and under any other tag it
  is parsed as `key:value` lines whose result is thrown away, so that only
  its errors matter.
 */
module LogPass {
  import opened Wrappers
  import opened Errors
  import opened Text
  import opened Ordinal
  import opened Record
  import opened Tokens
  import opened Parser

  /** main.ts `extractMatchCount`: the same search as parser.ts, without the
      mode, and a message that does not quote the heading. */
  function ExtractMatchCount(text: string): (r: Result<nat, Error>)
    ensures r.Failure? <==> !HasOrdinal(text)
    ensures r.Failure? <==> ExtractMatchCountAndMode(text).Failure?
    ensures r.Failure? ==> r.error == OrdinalMissing(None)
    ensures r.Success? ==> r.value == ExtractMatchCountAndMode(text).value.0
  {
    match OrdinalDigits(text)
    case None => Failure(OrdinalMissing(None))
    case Some(ds) => Success(DecimalValue(ds))
  }

  /** main.ts `separateKeyAndValue`: throws on a line without ':' (its
      message shows the one-element split, which is the line itself);
      otherwise the same key and value as the parser.ts splitter. */
  function SeparateKeyAndValueOrThrow(text: string): (r: Result<(string, string), Error>)
    ensures r.Failure? <==> ':' !in text
    ensures r.Failure? ==> r.error == ColonMissing(text)
    ensures r.Success? ==> SeparateKeyAndValue(text) == Some(r.value)
  {
    var parts := Split(text, ':');
    if |parts| < 2 then Failure(ColonMissing(Join(parts, ',')))
    else Success((Trim(parts[0]), Trim(Join(parts[1..], ':'))))
  }

  /** The `logParts.forEach` of `parseStringToObject`: the first line without
      ':' throws; otherwise the same record the parser.ts fold builds. */
  function AssignOrThrow(lines: seq<string>): (r: Result<map<string, string>, Error>)
    ensures r.Success? <==> forall i :: 0 <= i < |lines| ==> ':' in lines[i]
    ensures r.Success? ==> r.value == AssignFields(lines)
    ensures r.Failure? ==> exists i ::
      && 0 <= i < |lines|
      && ':' !in lines[i]
      && r.error == ColonMissing(lines[i])
      && forall j :: 0 <= j < i ==> ':' in lines[j]
  {
    AssignOrFail(lines, SeparateKeyAndValueOrThrow, SeparateKeyAndValue)
  }

  /** main.ts `parseStringToObject`: every line before the first 【動画】 line
      must hold a ':' (a blank line does not); the lines from the 【動画】 line
      on are ignored. */
  function ParseStringToObject(text: string): (r: Result<map<string, string>, Error>)
    ensures r.Success? <==> forall i :: 0 <= i < |LogPart(text)| ==> ':' in LogPart(text)[i]
    ensures r.Success? ==> r.value == AssignFields(LogPart(text))
    ensures r.Failure? ==> exists i ::
      0 <= i < |LogPart(text)| && ':' !in LogPart(text)[i] && r.error == ColonMissing(LogPart(text)[i])
  {
    AssignOrThrow(LogPart(text))
  }

  /** The state the token loop carries. */
  datatype PassState = PassState(enableTag: string, dateText: string, matchCount: nat)

  const InitialState: PassState := PassState("", "", 0)

  /** The log lines of an inline token's content all hold a ':'. */
  ghost predicate ColonLinesOnly(content: string) {
    forall i :: 0 <= i < |LogPart(content)| ==> ':' in LogPart(content)[i]
  }

  /** One iteration of the token loop. */
  function Step(s: PassState, t: Token): (r: Result<PassState, Error>)
    ensures t.kind == HeadingOpen ==> r == Success(s.(enableTag := t.tag))
    ensures t.kind == HeadingClose ==> r == Success(s.(enableTag := ""))
    ensures t.kind == OtherKind ==> r == Success(s)
    ensures t.kind == Inline && s.enableTag == "h2" ==> r == Success(s.(dateText := t.content))
    ensures t.kind == Inline && s.enableTag == "h3" ==>
      && (r.Failure? <==> !HasOrdinal(t.content))
      && (r.Success? ==> r.value == s.(matchCount := ExtractMatchCountAndMode(t.content).value.0))
    ensures t.kind == Inline && s.enableTag != "h2" && s.enableTag != "h3" ==>
      && (r.Success? <==> ColonLinesOnly(t.content))
      && (r.Success? ==> r.value == s)
  {
    match t.kind
    case HeadingOpen => Success(s.(enableTag := t.tag))
    case HeadingClose => Success(s.(enableTag := ""))
    case Inline =>
      if s.enableTag == "h2" then Success(s.(dateText := t.content))
      else if s.enableTag == "h3" then
        var n :- ExtractMatchCount(t.content);
        Success(s.(matchCount := n))
      else
        var _ :- ParseStringToObject(t.content);
        Success(s)
    case OtherKind => Success(s)
  }

  /** The token loop: the steps in order, the first error aborting the pass.
      Only inline tokens can throw, and only they touch the date and the
      match number. */
  function Run(s: PassState, tokens: seq<Token>): (r: Result<PassState, Error>)
    ensures (forall i :: 0 <= i < |tokens| ==> tokens[i].kind != Inline) ==>
      r.Success? && r.value.dateText == s.dateText && r.value.matchCount == s.matchCount
    decreases |tokens|
  {
    if |tokens| == 0 then Success(s)
    else
      assert forall i :: 0 <= i < |tokens| - 1 ==> tokens[1..][i] == tokens[i + 1];
      var next :- Step(s, tokens[0]);
      Run(next, tokens[1..])
  }

  /** The loop over two consecutive stretches of tokens is the loop over
      the first continued by the loop over the second. */
  lemma {:induction false} RunAppend(s: PassState, a: seq<Token>, b: seq<Token>)
    ensures Run(s, a + b) == match Run(s, a)
      case Failure(e) => Failure(e)
      case Success(m) => Run(m, b)
    decreases |a|
  {
    if |a| == 0 {
      assert a + b == b;
    } else {
      assert (a + b)[0] == a[0] && (a + b)[1..] == a[1..] + b;
      match Step(s, a[0])
      case Failure(_) =>
      case Success(next) => RunAppend(next, a[1..], b);
    }
  }

  /** The date survives any stretch of tokens that opens no `h2` heading,
      `h3` headings included. */
  lemma {:induction false} DatePersists(s: PassState, tokens: seq<Token>)
    requires s.enableTag != "h2"
    requires forall i :: 0 <= i < |tokens| ==> !(tokens[i].kind == HeadingOpen && tokens[i].tag == "h2")
    requires Run(s, tokens).Success?
    ensures Run(s, tokens).value.dateText == s.dateText
    decreases |tokens|
  {
    if |tokens| > 0 {
      var next := Step(s, tokens[0]).value;
      assert next.dateText == s.dateText && next.enableTag != "h2";
      assert forall i :: 0 <= i < |tokens| - 1 ==> tokens[1..][i] == tokens[i + 1];
      DatePersists(next, tokens[1..]);
    }
  }

  /** The match number at the end of a pass is the one it started with or
      the number of some inline token's 第N試合 heading. */
  lemma {:induction false} MatchCountFromHeading(s: PassState, tokens: seq<Token>)
    requires Run(s, tokens).Success?
    ensures Run(s, tokens).value.matchCount == s.matchCount || exists i ::
      && 0 <= i < |tokens|
      && tokens[i].kind == Inline
      && ExtractMatchCount(tokens[i].content) == Success(Run(s, tokens).value.matchCount)
    decreases |tokens|
  {
    if |tokens| > 0 {
      var next := Step(s, tokens[0]).value;
      var f := Run(s, tokens).value;
      assert Run(next, tokens[1..]) == Run(s, tokens);
      MatchCountFromHeading(next, tokens[1..]);
      if f.matchCount != s.matchCount && f.matchCount == next.matchCount {
        assert tokens[0].kind == Inline && s.enableTag == "h3";
        assert ExtractMatchCount(tokens[0].content) == Success(f.matchCount);
      } else if f.matchCount != next.matchCount {
        var i :| 0 <= i < |tokens| - 1 && tokens[1..][i].kind == Inline
          && ExtractMatchCount(tokens[1..][i].content) == Success(f.matchCount);
        assert tokens[i + 1] == tokens[1..][i];
      }
    }
  }

  /** The loop's input in main.ts: from the first token mentioning 試合ログ,
      that token included; with none, `slice(-1)` leaves the last token. */
  function MainWindow(tokens: seq<Token>): (w: seq<Token>)
    ensures forall i: nat :: FirstMention(tokens, LogMarker, i) ==> w == tokens[i..]
    ensures NoMention(tokens, LogMarker) ==> w == if |tokens| == 0 then [] else [tokens[|tokens| - 1]]
    ensures |w| <= |tokens| && w == tokens[|tokens| - |w|..]
  {
    Slice(tokens, FindIndexOrMinusOne(tokens, MentionsLogMarker), |tokens|)
  }

  /** A line of an inline token's content without ':' and without a
      newline or 【動画】 makes that content fail the colon check. */
  lemma ColonlessLineFails(line: string)
    requires ':' !in line && '\n' !in line && !IsMovieHeader(line)
    ensures !ColonLinesOnly(line)
  {
    var parts := Split(line, '\n');
    assert multiset(line)['\n'] == 0;
    assert |parts| == 1 && Join(parts, '\n') == parts[0];
    assert LogPart(line) == [line];
  }

  /** The loop window starts at the 試合ログ token itself. When that token is
      the inline text of a heading it is read with no enclosing tag, so the
      heading text is parsed as a `key:value` line, and a heading without
      ':' aborts the whole pass. */
  lemma {:induction false} LogHeadingAborts(tokens: seq<Token>, i: nat)
    requires FirstMention(tokens, LogMarker, i)
    requires tokens[i].kind == Inline && !ColonLinesOnly(tokens[i].content)
    ensures MatchLogPass(tokens).Failure?
  {
    var w := MainWindow(tokens);
    assert w == tokens[i..] && w[0] == tokens[i];
    assert Step(InitialState, w[0]).Failure?;
  }

  /** The plain heading text 試合ログ is such a colon-free line, so the
      pass aborts on the token that opens the match log. */
  lemma LogHeadingTextFails()
    ensures !ColonLinesOnly(LogMarker)
  {
    assert ':' !in LogMarker && '\n' !in LogMarker;
    assert !IsMovieHeader(LogMarker) by {
      forall k | 0 <= k <= |LogMarker|
        ensures !OccursAt(LogMarker, MovieKeyword, k)
      {
        if OccursAt(LogMarker, MovieKeyword, k) {
          OccursAtHead(LogMarker, MovieKeyword, k);
        }
      }
    }
    ColonlessLineFails(LogMarker);
  }

  /** The pass of main.ts `test` once the document is tokenised: when it
      gets through, the match number it ends with is the initial 0 or the
      number of some inline token's 第N試合 heading. */
  function MatchLogPass(tokens: seq<Token>): (r: Result<PassState, Error>)
    ensures r.Success? ==> r.value.matchCount == 0 || exists i ::
      && 0 <= i < |tokens|
      && tokens[i].kind == Inline
      && ExtractMatchCount(tokens[i].content) == Success(r.value.matchCount)
  {
    var r := Run(InitialState, MainWindow(tokens));
    if r.Success? then WindowMatchCount(tokens); r else r
  }

  /** `MatchCountFromHeading` for the loop window, its index carried back
      into the whole token list. */
  lemma WindowMatchCount(tokens: seq<Token>)
    ensures Run(InitialState, MainWindow(tokens)).Success? ==>
      var n := Run(InitialState, MainWindow(tokens)).value.matchCount;
      n == 0 || exists i ::
        && 0 <= i < |tokens|
        && tokens[i].kind == Inline
        && ExtractMatchCount(tokens[i].content) == Success(n)
  {
    var w := MainWindow(tokens);
    if Run(InitialState, w).Success? {
      var n := Run(InitialState, w).value.matchCount;
      MatchCountFromHeading(InitialState, w);
      if n != 0 {
        var i :| 0 <= i < |w| && w[i].kind == Inline && ExtractMatchCount(w[i].content) == Success(n);
        assert tokens[|tokens| - |w| + i] == w[i];
      }
    }
  }
}
