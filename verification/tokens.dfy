/**
  The markdown-it token stream, reduced to what the passes read of each
  token: its `type`, its `tag` ("h2", "h3", "p", …) and its `content`.
 */
module Tokens {
  import opened Text

  datatype TokenKind = HeadingOpen | HeadingClose | Inline | OtherKind

  datatype Token = Token(kind: TokenKind, tag: string, content: string)

  /** The heading that opens the match log section. */
  const LogMarker: string := "試合ログ"

  /** The heading of the blank template that closes the match log section. */
  const TemplateMarker: string := "（テンプレート）"

  predicate Mentions(t: Token, pat: string) {
    Contains(t.content, pat)
  }

  predicate MentionsLogMarker(t: Token) {
    Mentions(t, LogMarker)
  }

  predicate MentionsTemplateMarker(t: Token) {
    Mentions(t, TemplateMarker)
  }

  /** `i` is the first index of `tokens` whose content mentions `pat`. */
  ghost predicate FirstMention(tokens: seq<Token>, pat: string, i: nat) {
    && i < |tokens|
    && Mentions(tokens[i], pat)
    && forall j :: 0 <= j < i ==> !Mentions(tokens[j], pat)
  }

  ghost predicate NoMention(tokens: seq<Token>, pat: string) {
    forall j :: 0 <= j < |tokens| ==> !Mentions(tokens[j], pat)
  }
}
