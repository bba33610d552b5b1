/**
  The two regular expressions of `getMovieInfo` (src/parser.ts), written out
  with JavaScript's matching order:

  - `/^(.+?)視点/`: anchored at the start; the lazy group takes the fewest
    characters (at least one, none a line terminator) that are followed by
    視点;
  - `/\[.*?\]\((https?:\/\/[^\s)]+)\)/`: the leftmost `[` from which a match
    exists, then the nearest `]` (the lazy `.*?` crosses no line terminator)
    that is followed by `(`, an http or https scheme, a non-empty greedy run
    of characters that are neither whitespace nor `)`, and a `)`.
 */
module MovieText {
  import opened Wrappers
  import opened Text

  const PovSuffix: string := "視点"

  /** The name pattern matches with group `s[..n]`. */
  ghost predicate PovAt(s: string, n: nat) {
    && 1 <= n
    && OccursAt(s, PovSuffix, n)
    && forall j :: 0 <= j < n ==> !IsLineTerminator(s[j])
  }

  ghost predicate HasPov(s: string) {
    exists n: nat :: PovAt(s, n)
  }

  /** `name` is the group the lazy name pattern reports for `s`. */
  ghost predicate ShortestPovName(s: string, name: string) {
    && PovAt(s, |name|)
    && name == s[..|name|]
    && forall m: nat :: m < |name| ==> !PovAt(s, m)
  }

  /** Lazy search: tries group lengths n, n + 1, … */
  function PovFrom(s: string, n: nat): (r: Option<nat>)
    requires 1 <= n <= |s| + 1
    requires forall j :: 0 <= j < n - 1 ==> !IsLineTerminator(s[j])
    ensures r.Some? ==> n <= r.value && PovAt(s, r.value)
    ensures r.Some? ==> forall m: nat :: n <= m < r.value ==> !PovAt(s, m)
    ensures r.None? ==> forall m: nat :: n <= m ==> !PovAt(s, m)
    decreases |s| + 1 - n
  {
    if n > |s| || IsLineTerminator(s[n - 1]) then None
    else if OccursAt(s, PovSuffix, n) then Some(n)
    else PovFrom(s, n + 1)
  }

  /** The contributor group of `/^(.+?)視点/`, or `None` when it does not match. */
  function ContributorName(s: string): (r: Option<string>)
    ensures r.None? <==> !HasPov(s)
    ensures r.Some? ==> |r.value| >= 1 && ShortestPovName(s, r.value)
  {
    match PovFrom(s, 1)
    case None => None
    case Some(n) => Some(s[..n])
  }

  /** Two names both reported for `s` are the same name. */
  lemma ShortestPovNameUnique(s: string, a: string, b: string)
    requires ShortestPovName(s, a) && ShortestPovName(s, b)
    ensures a == b
  {
  }

  /** The characters `[^\s)]` admits. */
  predicate IsUrlChar(c: char) {
    !IsJsSpace(c) && c != ')'
  }

  /** `s[b..e]` is a non-empty run of URL characters. */
  ghost predicate UrlBody(s: string, b: nat, e: nat) {
    b < e <= |s| && forall j {:trigger IsUrlChar(s[j])} :: b <= j < e ==> IsUrlChar(s[j])
  }

  /** The length of the `https?:\/\/` scheme at `k`: 8 for `https://`, 7
      for `http://`, 0 when neither occurs. The two cannot both occur, as
      one has 's' and the other ':' at `k + 4`, so the greedy `s?` never has
      a second choice. */
  function SchemeLength(s: string, k: nat): (n: nat)
    ensures n == 8 <==> OccursAt(s, "https://", k)
    ensures n == 7 <==> OccursAt(s, "http://", k)
    ensures n == 0 || n == 7 || n == 8
    ensures n > 0 ==> k + n <= |s|
  {
    assert OccursAt(s, "https://", k) ==> s[k + 4] == 's';
    assert OccursAt(s, "http://", k) ==> s[k + 4] == ':';
    if OccursAt(s, "https://", k) then 8
    else if OccursAt(s, "http://", k) then 7
    else 0
  }

  /** The scheme itself holds no whitespace. */
  lemma SchemeHasNoSpace(s: string, k: nat)
    requires SchemeLength(s, k) > 0
    ensures forall j :: k <= j < k + SchemeLength(s, k) ==> !IsJsSpace(s[j])
  {
    var scheme := if SchemeLength(s, k) == 8 then "https://" else "http://";
    assert s[k..k + |scheme|] == scheme;
    forall j | k <= j < k + |scheme|
      ensures !IsJsSpace(s[j])
    {
      assert s[j] == s[k..k + |scheme|][j - k] == scheme[j - k];
    }
  }

  /** `https?:\/\/[^\s)]+\)` matches at `k`, the group ending at the `)` at `e`. */
  ghost predicate UrlAt(s: string, k: nat, e: nat) {
    && e < |s| && s[e] == ')'
    && SchemeLength(s, k) > 0
    && UrlBody(s, k + SchemeLength(s, k), e)
  }

  /** The whole link pattern matches with `[` at `p`, `]` at `q`, and the
      group `s[q + 2..e]`. */
  ghost predicate LinkAt(s: string, p: nat, q: nat, e: nat) {
    Bracketed(s, p, q) && UrlAt(s, q + 2, e)
  }

  /** `\[.*?\]\(` matches with `[` at `p` and `]` at `q`. */
  ghost predicate Bracketed(s: string, p: nat, q: nat) {
    && p < q && q + 1 < |s|
    && s[p] == '[' && s[q] == ']' && s[q + 1] == '('
    && (forall j {:trigger IsLineTerminator(s[j])} :: p < j < q ==> !IsLineTerminator(s[j]))
  }

  /** The lazy `.*?` cannot cross a line terminator. */
  lemma TerminatorBlocks(s: string, p: nat, q: nat)
    requires p < q < |s| && IsLineTerminator(s[q])
    ensures forall q': nat :: q < q' ==> !Bracketed(s, p, q')
  {
  }

  ghost predicate HasLink(s: string) {
    exists p: nat, q: nat, e: nat :: LinkAt(s, p, q, e)
  }

  /** No `]` at `q` closes a link opened at `p`. */
  ghost predicate NoLinkAt(s: string, p: nat, q: nat) {
    forall e: nat :: !LinkAt(s, p, q, e)
  }

  /** No `]` in `[q, r)` closes a link opened at `p`. */
  ghost predicate NoCloseIn(s: string, p: nat, q: nat, r: nat) {
    forall q': nat :: q <= q' < r ==> NoLinkAt(s, p, q')
  }

  /** No `]` at or after `q` closes a link opened at `p`. */
  ghost predicate NoCloseFrom(s: string, p: nat, q: nat) {
    forall q': nat :: q <= q' ==> NoLinkAt(s, p, q')
  }

  /** No link starts at `p`. */
  ghost predicate NoLinkStart(s: string, p: nat) {
    NoCloseFrom(s, p, 0)
  }

  /** No link starts in `[p, r)`. */
  ghost predicate NoStartIn(s: string, p: nat, r: nat) {
    forall p': nat :: p <= p' < r ==> NoLinkStart(s, p')
  }

  /** No link starts at or after `p`. */
  ghost predicate NoStartFrom(s: string, p: nat) {
    forall p': nat :: p <= p' ==> NoLinkStart(s, p')
  }

  /** The match JavaScript reports: no link starts before `p`, and no `]`
      before `q` closes the one that starts at `p`. */
  ghost predicate FirstLink(s: string, p: nat, q: nat, e: nat) {
    && LinkAt(s, p, q, e)
    && NoStartIn(s, 0, p)
    && NoCloseIn(s, p, 0, q)
  }

  /** `url` is the group the link pattern reports for `s`. */
  ghost predicate FirstLinkUrl(s: string, url: string) {
    exists p: nat, q: nat, e: nat :: FirstLink(s, p, q, e) && url == s[q + 2..e]
  }

  /** Once the scheme is fixed the URL group has one end only: the greedy
      run cannot stop before a `)` it could have consumed. */
  lemma UrlAtUnique(s: string, k: nat, e: nat, e': nat)
    requires UrlAt(s, k, e) && UrlAt(s, k, e')
    ensures e == e'
  {
    assert !IsUrlChar(s[e]) && !IsUrlChar(s[e']);
  }

  /** A URL group holds no whitespace: neither the scheme nor the body can. */
  lemma UrlHasNoSpace(s: string, k: nat, e: nat)
    requires UrlAt(s, k, e)
    ensures forall j :: k <= j < e ==> !IsJsSpace(s[j])
  {
    SchemeHasNoSpace(s, k);
    assert forall j :: k + SchemeLength(s, k) <= j < e ==> IsUrlChar(s[j]);
  }

  /** Tries the URL part of the pattern at `k` only. */
  function UrlEndAt(s: string, k: nat): (r: Option<nat>)
    requires k <= |s|
    ensures r.Some? ==> UrlAt(s, k, r.value)
    ensures r.None? ==> forall e: nat :: !UrlAt(s, k, e)
  {
    var n := SchemeLength(s, k);
    if n == 0 then None
    else
      var run := RunLength(s, k + n, IsUrlChar);
      if run > 0 && k + n + run < |s| && s[k + n + run] == ')' then Some(k + n + run)
      else None
  }

  /** Lazy `.*?` after the `[` at `p`: tries the `]` at `q`, `q + 1`, … */
  function CloseFrom(s: string, p: nat, q: nat): (r: Option<(nat, nat)>)
    requires p < q <= |s| && s[p] == '['
    requires forall j :: p < j < q ==> !IsLineTerminator(s[j])
    ensures r.Some? ==> q <= r.value.0 && LinkAt(s, p, r.value.0, r.value.1)
    ensures r.Some? ==> NoCloseIn(s, p, q, r.value.0)
    ensures r.None? ==> NoCloseFrom(s, p, q)
    decreases |s| - q
  {
    if q + 1 >= |s| then None
    else
      var here := if s[q] == ']' && s[q + 1] == '(' then UrlEndAt(s, q + 2) else None;
      if here.Some? then Some((q, here.value))
      else
        assert NoLinkAt(s, p, q);
        if IsLineTerminator(s[q]) then
          TerminatorBlocks(s, p, q);
          None
        else
          var r := CloseFrom(s, p, q + 1);
          if r.Some? then NoCloseInStep(s, p, q, r.value.0); r
          else NoCloseFromStep(s, p, q); r
  }

  lemma NoCloseInStep(s: string, p: nat, q: nat, r: nat)
    requires NoLinkAt(s, p, q) && NoCloseIn(s, p, q + 1, r)
    ensures NoCloseIn(s, p, q, r)
  {
  }

  lemma NoCloseFromStep(s: string, p: nat, q: nat)
    requires NoLinkAt(s, p, q) && NoCloseFrom(s, p, q + 1)
    ensures NoCloseFrom(s, p, q)
  {
  }

  /** A `]` at or before the `[` closes nothing. */
  lemma CloseAfterOpen(s: string, p: nat, r: nat)
    ensures NoCloseIn(s, p, 0, p + 1)
    ensures NoCloseFrom(s, p, p + 1) ==> NoLinkStart(s, p)
    ensures NoCloseIn(s, p, p + 1, r) ==> NoCloseIn(s, p, 0, r)
  {
  }

  /** No link starts anywhere but at a `[`. */
  lemma StartsAtBracket(s: string, p: nat)
    requires p >= |s| || s[p] != '['
    ensures NoLinkStart(s, p)
  {
  }

  lemma NoStartInStep(s: string, p: nat, r: nat)
    requires NoLinkStart(s, p) && NoStartIn(s, p + 1, r)
    ensures NoStartIn(s, p, r)
  {
  }

  lemma NoStartFromStep(s: string, p: nat)
    requires NoLinkStart(s, p) && NoStartFrom(s, p + 1)
    ensures NoStartFrom(s, p)
  {
  }

  /** The leftmost `[` at or after `p` from which the pattern matches. */
  function LinkFrom(s: string, p: nat): (r: Option<(nat, nat, nat)>)
    requires p <= |s|
    ensures r.Some? ==> p <= r.value.0 && LinkAt(s, r.value.0, r.value.1, r.value.2)
    ensures r.Some? ==> NoStartIn(s, p, r.value.0)
    ensures r.Some? ==> NoCloseIn(s, r.value.0, 0, r.value.1)
    ensures r.None? ==> NoStartFrom(s, p)
    decreases |s| - p
  {
    if p == |s| then
      forall p': nat | p <= p'
        ensures NoLinkStart(s, p')
      {
        StartsAtBracket(s, p');
      }
      None
    else if s[p] == '[' then
      match CloseFrom(s, p, p + 1)
      case Some((q, e)) =>
        CloseAfterOpen(s, p, q);
        Some((p, q, e))
      case None =>
        CloseAfterOpen(s, p, 0);
        LinkFromNext(s, p)
    else
      StartsAtBracket(s, p);
      LinkFromNext(s, p)
  }

  /** `LinkFrom` past a position where no link starts. */
  function LinkFromNext(s: string, p: nat): (r: Option<(nat, nat, nat)>)
    requires p < |s| && NoLinkStart(s, p)
    ensures r.Some? ==> p <= r.value.0 && LinkAt(s, r.value.0, r.value.1, r.value.2)
    ensures r.Some? ==> NoStartIn(s, p, r.value.0)
    ensures r.Some? ==> NoCloseIn(s, r.value.0, 0, r.value.1)
    ensures r.None? ==> NoStartFrom(s, p)
    decreases |s| - p, 0
  {
    var r := LinkFrom(s, p + 1);
    if r.Some? then NoStartInStep(s, p, r.value.0); r
    else NoStartFromStep(s, p); r
  }

  /** The URL group of the link pattern, or `None` when it does not match. */
  function LinkUrl(s: string): (r: Option<string>)
    ensures r.None? <==> !HasLink(s)
    ensures r.Some? ==> FirstLinkUrl(s, r.value)
    ensures r.Some? ==> forall j :: 0 <= j < |r.value| ==> !IsJsSpace(r.value[j])
  {
    match LinkFrom(s, 0)
    case None =>
      forall p: nat, q: nat, e: nat
        ensures !LinkAt(s, p, q, e)
      {
        assert NoLinkStart(s, p) && NoLinkAt(s, p, q);
      }
      None
    case Some((p, q, e)) =>
      assert FirstLink(s, p, q, e);
      UrlHasNoSpace(s, q + 2, e);
      Some(s[q + 2..e])
  }

  /** `urlMatch[1].trim()`: the URL group, which `trim` leaves as it is. */
  function TrimmedLinkUrl(s: string): (r: Option<string>)
    ensures r.None? <==> !HasLink(s)
    ensures r.Some? ==> FirstLinkUrl(s, r.value)
    ensures r.Some? ==> r == LinkUrl(s)
  {
    match LinkUrl(s)
    case None => None
    case Some(url) =>
      TrimKeeps(url);
      Some(Trim(url))
  }

  /** The link search is complete: whenever the pattern's first match is
      the one at `p`, `q`, `e`, its URL group is what `LinkUrl` returns. */
  lemma LinkUrlOfFirstLink(s: string, p: nat, q: nat, e: nat)
    requires FirstLink(s, p, q, e)
    ensures LinkUrl(s) == Some(s[q + 2..e])
  {
    var p', q', e' := ReportedLink(s, p, q, e);
    FirstLinkUnique(s, p, q, e, p', q', e');
  }

  /** The match behind the URL `LinkUrl` reports. */
  lemma ReportedLink(s: string, p0: nat, q0: nat, e0: nat) returns (p: nat, q: nat, e: nat)
    requires LinkAt(s, p0, q0, e0)
    ensures FirstLink(s, p, q, e) && LinkUrl(s) == Some(s[q + 2..e])
  {
    var url := LinkUrl(s).value;
    assert FirstLinkUrl(s, url);
    p, q, e :| FirstLink(s, p, q, e) && url == s[q + 2..e];
  }

  /** The reported match is unique: the leftmost `[`, its nearest `]`, and
      the one end the URL run has there. */
  lemma FirstLinkUnique(s: string, p: nat, q: nat, e: nat, p': nat, q': nat, e': nat)
    requires FirstLink(s, p, q, e) && FirstLink(s, p', q', e')
    ensures p == p' && q == q' && e == e'
  {
    assert LinkAt(s, p, q, e) && LinkAt(s, p', q', e');
    assert p < p' ==> NoLinkStart(s, p) && NoLinkAt(s, p, q);
    assert p' < p ==> NoLinkStart(s, p') && NoLinkAt(s, p', q');
    assert p == p';
    assert q < q' ==> NoLinkAt(s, p, q);
    assert q' < q ==> NoLinkAt(s, p, q');
    UrlAtUnique(s, q + 2, e, e');
  }
}
