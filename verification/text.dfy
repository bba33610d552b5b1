/**
  The few JavaScript string and array operations the parser relies on,
  written out with their ECMAScript meaning: `findIndex`, `includes`,
  `split` on one character, `join`, and `trim` with JavaScript's whitespace
  set (which is also what the regular-expression class `\s` matches).
 */
module Text {
  import opened Wrappers

  /** `Array.prototype.findIndex`, with `None` for the source's -1. */
  function FindIndex<T>(xs: seq<T>, p: T -> bool): (r: Option<nat>)
    ensures r.Some? ==> r.value < |xs| && p(xs[r.value])
    ensures r.Some? ==> forall j :: 0 <= j < r.value ==> !p(xs[j])
    ensures r.None? ==> forall j :: 0 <= j < |xs| ==> !p(xs[j])
    decreases |xs|
  {
    if |xs| == 0 then None
    else if p(xs[0]) then Some(0)
    else match FindIndex(xs[1..], p)
      case None => None
      case Some(i) => Some(i + 1)
  }

  /** `String.prototype.indexOf` for one character, `None` for -1. */
  function IndexOfChar(s: string, c: char): (r: Option<nat>)
    ensures r.Some? ==> r.value < |s| && s[r.value] == c && c !in s[..r.value]
    ensures r.None? ==> c !in s
    decreases |s|
  {
    if |s| == 0 then None
    else if s[0] == c then Some(0)
    else match IndexOfChar(s[1..], c)
      case None => None
      case Some(i) =>
        assert s[..i + 1] == [s[0]] + s[1..][..i];
        Some(i + 1)
  }

  /** `Array.prototype.map` with a callback that may throw: every element
      converted in order, or the error of the first one that fails. */
  function MapAll<A, B, E>(xs: seq<A>, f: A -> Result<B, E>): (r: Result<seq<B>, E>)
    ensures r.Success? <==> forall i :: 0 <= i < |xs| ==> f(xs[i]).Success?
    ensures r.Success? ==> |r.value| == |xs|
    ensures r.Success? ==> forall i :: 0 <= i < |xs| ==> f(xs[i]) == Success(r.value[i])
    ensures r.Failure? ==> exists i ::
      && 0 <= i < |xs|
      && f(xs[i]) == Failure(r.error)
      && forall j :: 0 <= j < i ==> f(xs[j]).Success?
    decreases |xs|
  {
    if |xs| == 0 then Success([])
    else
      match f(xs[0])
      case Failure(e) => Failure(e)
      case Success(head) =>
        assert forall i :: 1 <= i < |xs| ==> xs[i] == xs[1..][i - 1];
        match MapAll(xs[1..], f)
        case Failure(e) => Failure(e)
        case Success(tail) => Success([head] + tail)
  }

  /** `findIndex` with the source's -1 for "not found". */
  function FindIndexOrMinusOne<T>(xs: seq<T>, p: T -> bool): (i: int)
    ensures -1 <= i < |xs|
    ensures i >= 0 ==> p(xs[i]) && forall j :: 0 <= j < i ==> !p(xs[j])
    ensures i == -1 ==> forall j :: 0 <= j < |xs| ==> !p(xs[j])
  {
    match FindIndex(xs, p)
    case Some(i) => i
    case None => -1
  }

  /** `Array.prototype.slice(start, end)`: negative bounds count from the
      end, bounds are clamped to the array, and crossed bounds give []. */
  function Slice<T>(xs: seq<T>, start: int, end: int): (r: seq<T>)
    ensures |r| == Max(SliceBound(end, |xs|) - SliceBound(start, |xs|), 0)
    ensures forall i :: 0 <= i < |r| ==> r[i] == xs[SliceBound(start, |xs|) + i]
    ensures start == -1 && end == |xs| ==> r == if |xs| == 0 then [] else [xs[|xs| - 1]]
  {
    var from := SliceBound(start, |xs|);
    var to := SliceBound(end, |xs|);
    if from < to then xs[from..to] else []
  }

  /** A `slice` bound against an array of length `n`: a negative bound
      counts from the end, and the result is clamped to `[0, n]`. */
  function SliceBound(i: int, n: nat): (k: nat)
    ensures k <= n
    ensures 0 <= i <= n ==> k == i
    ensures i < 0 <= n + i ==> k == n + i
    ensures i > n ==> k == n
    ensures n + i < 0 ==> k == 0
  {
    if i < 0 then Max(n + i, 0) else Min(i, n)
  }

  /** `i` is the first index of `xs` whose element satisfies `p`. */
  ghost predicate FirstWhere<T>(xs: seq<T>, p: T -> bool, i: nat) {
    i < |xs| && p(xs[i]) && forall j :: 0 <= j < i ==> !p(xs[j])
  }

  /** `xs.slice(xs.findIndex(p) + 1, xs.findIndex(q) + 1)`: after the first
      `p` element (from the start when there is none) up to and including
      the first `q` element; empty when there is no `q` element or it does
      not come after the first `p` element. */
  function Between<T>(xs: seq<T>, p: T -> bool, q: T -> bool): (w: seq<T>)
    ensures (forall j :: 0 <= j < |xs| ==> !q(xs[j])) ==> w == []
    ensures forall b: nat :: (forall j :: 0 <= j < |xs| ==> !p(xs[j])) && FirstWhere(xs, q, b) ==>
      w == xs[..b + 1]
    ensures forall a: nat, b: nat :: FirstWhere(xs, p, a) && FirstWhere(xs, q, b) ==>
      w == if a < b then xs[a + 1..b + 1] else []
    ensures |w| > 0 ==> q(w[|w| - 1])
    ensures forall j :: 0 <= j < |w| - 1 ==> !q(w[j])
  {
    var start := FindIndexOrMinusOne(xs, p) + 1;
    var end := FindIndexOrMinusOne(xs, q) + 1;
    var w := Slice(xs, start, end);
    assert w == if start < end then xs[start..end] else [];
    assert forall j :: 0 <= j < |w| ==> w[j] == xs[start + j];
    w
  }

  function Min(a: int, b: int): int { if a <= b then a else b }

  function Max(a: int, b: int): int { if a >= b then a else b }

  /** Length of the longest run of characters satisfying `p` that starts at
      index `i`: the greedy `p+` / `p*` of a regular expression. */
  function RunLength(s: string, i: nat, p: char -> bool): (n: nat)
    requires i <= |s|
    ensures i + n <= |s|
    ensures forall j :: i <= j < i + n ==> p(s[j])
    ensures i + n == |s| || !p(s[i + n])
    decreases |s| - i
  {
    if i < |s| && p(s[i]) then 1 + RunLength(s, i + 1, p) else 0
  }

  /** `pat` occurs in `s` starting at index `i`. */
  predicate OccursAt(s: string, pat: string, i: nat) {
    i + |pat| <= |s| && s[i..i + |pat|] == pat
  }

  /** An occurrence starts with the pattern's first character. */
  lemma OccursAtHead(s: string, pat: string, i: nat)
    requires OccursAt(s, pat, i) && |pat| > 0
    ensures i < |s| && s[i] == pat[0]
  {
    assert s[i..i + |pat|][0] == s[i];
  }

  /** `String.prototype.includes`. */
  predicate Contains(s: string, pat: string)
    ensures |pat| == 0 ==> Contains(s, pat)
    ensures |pat| > |s| ==> !Contains(s, pat)
  {
    assert |pat| == 0 ==> OccursAt(s, pat, 0);
    exists i | 0 <= i <= |s| :: OccursAt(s, pat, i)
  }

  /** ECMAScript LineTerminator: what the regular-expression `.` refuses. */
  predicate IsLineTerminator(c: char) {
    c == '\n' || c == '\r' || c == '\U{2028}' || c == '\U{2029}'
  }

  /** ECMAScript WhiteSpace or LineTerminator: what `trim` removes and `\s` matches. */
  predicate IsJsSpace(c: char) {
    || IsLineTerminator(c)
    || c == '\t' || c == '\U{B}' || c == '\U{C}' || c == ' '
    || c == '\U{A0}' || c == '\U{1680}' || ('\U{2000}' <= c <= '\U{200A}')
    || c == '\U{202F}' || c == '\U{205F}' || c == '\U{3000}' || c == '\U{FEFF}'
  }

  /** `parts.join(sep)`. */
  function Join(parts: seq<string>, sep: char): (s: string)
    ensures |parts| > 0 ==> parts[0] <= s
    ensures |parts| > 1 ==> |parts[0]| < |s| && s[|parts[0]|] == sep
    decreases |parts|
  {
    if |parts| == 0 then ""
    else if |parts| == 1 then parts[0]
    else parts[0] + [sep] + Join(parts[1..], sep)
  }

  /** `s.split(sep)` for a one-character separator: one more part than there
      are separators, no part holding the separator, and joining the parts
      back gives `s` again. */
  function Split(s: string, sep: char): (parts: seq<string>)
    ensures |parts| == multiset(s)[sep] + 1
    ensures forall k :: 0 <= k < |parts| ==> sep !in parts[k]
    ensures Join(parts, sep) == s
    decreases |s|
  {
    match IndexOfChar(s, sep)
    case None => [s]
    case Some(i) =>
      var rest := Split(s[i + 1..], sep);
      assert s == s[..i] + [sep] + s[i + 1..];
      assert ([s[..i]] + rest)[1..] == rest;
      [s[..i]] + rest
  }

  /** Splitting a join of separator-free parts gives the parts back. */
  lemma {:induction false} SplitJoin(parts: seq<string>, sep: char)
    requires |parts| >= 1
    requires forall k :: 0 <= k < |parts| ==> sep !in parts[k]
    ensures Split(Join(parts, sep), sep) == parts
    decreases |parts|
  {
    if |parts| > 1 {
      var rest := parts[1..];
      assert forall k :: 0 <= k < |rest| ==> rest[k] == parts[k + 1];
      SplitJoin(rest, sep);
      JoinCons(parts, sep);
      SplitCons(parts[0], Join(rest, sep), sep);
      assert parts == [parts[0]] + rest;
    } else {
      SplitNone(parts[0], sep);
    }
  }

  /** A text without the separator splits into itself. */
  lemma SplitNone(s: string, sep: char)
    requires sep !in s
    ensures Split(s, sep) == [s]
  {
    assert IndexOfChar(s, sep).None?;
  }

  lemma JoinCons(parts: seq<string>, sep: char)
    requires |parts| > 1
    ensures Join(parts, sep) == parts[0] + [sep] + Join(parts[1..], sep)
  {
  }

  /** A separator-free text, the separator, then more: the text is the
      first part. */
  lemma SplitCons(head: string, tail: string, sep: char)
    requires sep !in head
    ensures Split(head + [sep] + tail, sep) == [head] + Split(tail, sep)
  {
    var s := head + [sep] + tail;
    assert s[..|head|] == head && s[|head|] == sep && s[|head| + 1..] == tail;
    SplitAtFirst(s, sep, |head|);
  }

  /** Splitting at the first separator: the text before it, then the split
      of the rest. */
  lemma SplitAtFirst(s: string, sep: char, i: nat)
    requires i < |s| && s[i] == sep && sep !in s[..i]
    ensures Split(s, sep) == [s[..i]] + Split(s[i + 1..], sep)
  {
    assert forall j :: 0 <= j < i ==> s[j] == s[..i][j];
    assert IndexOfChar(s, sep) == Some(i);
  }

  /** The number of whitespace characters from index `i` on. */
  function SpaceRun(s: string, i: nat): (n: nat)
    requires i <= |s|
    ensures i + n <= |s|
    ensures forall j :: i <= j < i + n ==> IsJsSpace(s[j])
    ensures i + n == |s| || !IsJsSpace(s[i + n])
    decreases |s| - i
  {
    if i < |s| && IsJsSpace(s[i]) then 1 + SpaceRun(s, i + 1) else 0
  }

  /** The number of whitespace characters just before index `e`. */
  function SpaceRunBack(s: string, e: nat): (n: nat)
    requires e <= |s|
    ensures n <= e
    ensures forall j :: e - n <= j < e ==> IsJsSpace(s[j])
    ensures n == e || !IsJsSpace(s[e - n - 1])
    decreases e
  {
    if e > 0 && IsJsSpace(s[e - 1]) then 1 + SpaceRunBack(s, e - 1) else 0
  }

  /** `String.prototype.trimStart`. */
  function TrimStart(s: string): (r: string)
    ensures |r| <= |s| && r == s[|s| - |r|..]
    ensures forall j :: 0 <= j < |s| - |r| ==> IsJsSpace(s[j])
    ensures |r| == 0 || !IsJsSpace(r[0])
  {
    s[SpaceRun(s, 0)..]
  }

  /** `String.prototype.trimEnd`. */
  function TrimEnd(s: string): (r: string)
    ensures |r| <= |s| && r == s[..|r|]
    ensures forall j :: |r| <= j < |s| ==> IsJsSpace(s[j])
    ensures |r| == 0 || !IsJsSpace(r[|r| - 1])
  {
    s[..|s| - SpaceRunBack(s, |s|)]
  }

  /** `r` is the slice of `s` starting at `a`, and everything of `s`
      outside that slice is whitespace. */
  ghost predicate TrimmedFrom(s: string, r: string, a: nat) {
    && a + |r| <= |s|
    && r == s[a..a + |r|]
    && (forall j :: 0 <= j < a ==> IsJsSpace(s[j]))
    && (forall j :: a + |r| <= j < |s| ==> IsJsSpace(s[j]))
  }

  /** Neither end of `s` is whitespace. */
  predicate NoOuterSpace(s: string) {
    |s| == 0 || (!IsJsSpace(s[0]) && !IsJsSpace(s[|s| - 1]))
  }

  /** `String.prototype.trim`: the slice of `s` that is left after dropping
      the whitespace at both ends, starting where the leading whitespace
      ends. */
  function Trim(s: string): (r: string)
    ensures TrimmedFrom(s, r, SpaceRun(s, 0))
    ensures NoOuterSpace(r)
  {
    var a := SpaceRun(s, 0);
    var n := SpaceRunBack(s, |s|);
    if a == |s| then ""
    else
      assert !IsJsSpace(s[a]);
      assert a < |s| - n;
      s[a..|s| - n]
  }

  /** Trimming a string whose ends are not whitespace leaves it unchanged. */
  lemma TrimKeeps(s: string)
    requires NoOuterSpace(s)
    ensures Trim(s) == s
  {
    var r := Trim(s);
    var a: nat :| TrimmedFrom(s, r, a);
  }

  /** `trim` is characterised by its contract: a slice with whitespace only
      outside it and none at its own ends is what `trim` returns. */
  lemma TrimUnique(s: string, r: string, a: nat)
    requires TrimmedFrom(s, r, a) && NoOuterSpace(r)
    ensures Trim(s) == r
  {
    SameCore(s, r, a, Trim(s), SpaceRun(s, 0));
  }

  /** Two trimmed slices of the same text are the same slice. */
  lemma SameCore(s: string, r: string, a: nat, t: string, b: nat)
    requires TrimmedFrom(s, r, a) && NoOuterSpace(r)
    requires TrimmedFrom(s, t, b) && NoOuterSpace(t)
    ensures r == t
  {
    SameCoreBounds(s, r, a, t, b);
    if |r| > 0 {
      assert s[a..a + |r|] == s[b..b + |t|];
    }
  }

  /** Two trimmed slices of the same text have the same length, and the
      same start when they are not empty. */
  lemma SameCoreBounds(s: string, r: string, a: nat, t: string, b: nat)
    requires TrimmedFrom(s, r, a) && NoOuterSpace(r)
    requires TrimmedFrom(s, t, b) && NoOuterSpace(t)
    ensures |r| == |t| && (|r| > 0 ==> a == b)
  {
    assert |r| > 0 ==> !IsJsSpace(s[a]) && !IsJsSpace(s[a + |r| - 1]);
    assert |t| > 0 ==> !IsJsSpace(s[b]) && !IsJsSpace(s[b + |t| - 1]);
    assert |r| > 0 <==> |t| > 0;
    assert |r| > 0 ==> a == b;
  }

  /** Trimming twice is trimming once. */
  lemma TrimIdempotent(s: string)
    ensures Trim(Trim(s)) == Trim(s)
  {
    TrimKeeps(Trim(s));
  }

  /** `trim` drops the leading whitespace and then the trailing whitespace:
      it is `trimEnd` after `trimStart`. */
  lemma TrimIsEndOfStart(s: string)
    ensures Trim(s) == TrimEnd(TrimStart(s))
  {
    var t := TrimStart(s);
    var r := TrimEnd(t);
    var a := |s| - |t|;
    assert forall j :: 0 <= j < |t| ==> t[j] == s[a + j];
    assert r == s[a..a + |r|];
    if |r| == 0 {
      assert |t| == 0;
    } else {
      assert !IsJsSpace(r[0]);
    }
    assert TrimmedFrom(s, r, a);
    TrimUnique(s, r, a);
  }
}
