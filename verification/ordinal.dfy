/**
  The ordinal marker of a match heading: the regular expression
  `/第(\d+)試合/` search that both parser.ts and main.ts run, with the
  JavaScript meaning of `match` (leftmost match, `\d` = ASCII digits only)
  and `parseInt(…, 10)` taken over unbounded naturals.
 */
module Ordinal {
  import opened Wrappers
  import opened Text

  predicate IsDigit(c: char) {
    '0' <= c <= '9'
  }

  ghost predicate AllDigits(ds: string) {
    forall k :: 0 <= k < |ds| ==> IsDigit(ds[k])
  }

  function DigitValue(c: char): (d: nat)
    requires IsDigit(c)
    ensures d < 10
  {
    (c as int) - ('0' as int)
  }

  function DigitChar(d: nat): (c: char)
    requires d < 10
    ensures IsDigit(c) && DigitValue(c) == d
  {
    ('0' as int + d) as char
  }

  /** `parseInt(ds, 10)` of a string of decimal digits: zero exactly when
      every digit is 0. */
  function DecimalValue(ds: string): (v: nat)
    requires AllDigits(ds)
    ensures v == 0 <==> forall k :: 0 <= k < |ds| ==> ds[k] == '0'
    decreases |ds|
  {
    if |ds| == 0 then 0
    else 10 * DecimalValue(ds[..|ds| - 1]) + DigitValue(ds[|ds| - 1])
  }

  /** The decimal numeral of `n`, without leading zeros. */
  function Decimal(n: nat): (ds: string)
    ensures |ds| >= 1 && AllDigits(ds)
    ensures DecimalValue(ds) == n
    decreases n
  {
    if n < 10 then [DigitChar(n)]
    else
      var ds := Decimal(n / 10) + [DigitChar(n % 10)];
      assert ds[..|ds| - 1] == Decimal(n / 10);
      ds
  }

  /** A leading 0 does not change the value of a numeral. */
  lemma {:induction false} LeadingZero(ds: string)
    requires AllDigits(ds)
    ensures AllDigits("0" + ds) && DecimalValue("0" + ds) == DecimalValue(ds)
    decreases |ds|
  {
    var zs := "0" + ds;
    if |ds| > 0 {
      var p := ds[..|ds| - 1];
      assert zs[..|zs| - 1] == "0" + p;
      LeadingZero(p);
    }
  }

  /** A numeral without leading zeros reads back as itself: `Decimal` undoes
      `DecimalValue` on such numerals, as `DecimalValue` undoes `Decimal`. */
  lemma {:induction false} DecimalOfValue(ds: string)
    requires |ds| >= 1 && AllDigits(ds)
    requires |ds| == 1 || ds[0] != '0'
    ensures Decimal(DecimalValue(ds)) == ds
    decreases |ds|
  {
    var c := ds[|ds| - 1];
    assert DigitChar(DigitValue(c)) == c;
    if |ds| > 1 {
      var p := ds[..|ds| - 1];
      assert p[0] == ds[0];
      DecimalOfValue(p);
    }
  }

  /** The pattern 第(\d+)試合 matches at index `i` of `s`, its digit group
      being `s[i + 1..j]`. */
  ghost predicate OrdinalSpan(s: string, i: nat, j: nat) {
    && i + 1 < j <= |s|
    && s[i] == '第'
    && (forall k :: i < k < j ==> IsDigit(s[k]))
    && OccursAt(s, "試合", j)
  }

  ghost predicate HasOrdinal(s: string) {
    exists i, j :: OrdinalSpan(s, i, j)
  }

  /** The match at `i` is the leftmost one, which is the one `match` reports. */
  ghost predicate LeftmostOrdinal(s: string, i: nat, j: nat) {
    && OrdinalSpan(s, i, j)
    && forall i', j' :: OrdinalSpan(s, i', j') ==> i <= i'
  }

  /** A match starting at `i` has only one possible end: the digit group
      cannot stop early, because 試 is not a digit. */
  lemma SpanUnique(s: string, i: nat, j: nat, j': nat)
    requires OrdinalSpan(s, i, j) && OrdinalSpan(s, i, j')
    ensures j == j'
  {
    OccursAtHead(s, "試合", j);
    OccursAtHead(s, "試合", j');
    assert !IsDigit(s[j]) && !IsDigit(s[j']);
  }

  /** Tries the pattern at index `i` only; the end of the digit group on success. */
  function OrdinalEndAt(s: string, i: nat): (r: Option<nat>)
    requires i <= |s|
    ensures r.Some? ==> OrdinalSpan(s, i, r.value)
    ensures r.None? ==> forall j :: !OrdinalSpan(s, i, j)
  {
    if i < |s| && s[i] == '第' then
      var n := RunLength(s, i + 1, IsDigit);
      if n > 0 && OccursAt(s, "試合", i + 1 + n) then Some(i + 1 + n)
      else
        assert forall j :: OrdinalSpan(s, i, j) ==> j == i + 1 + n by {
          forall j: nat | OrdinalSpan(s, i, j)
            ensures j == i + 1 + n
          {
            OccursAtHead(s, "試合", j);
            assert !IsDigit(s[j]);
          }
        }
        None
    else None
  }

  /** The leftmost match at or after `from`. */
  function FindOrdinal(s: string, from: nat): (r: Option<(nat, nat)>)
    requires from <= |s|
    ensures r.Some? ==> from <= r.value.0 && OrdinalSpan(s, r.value.0, r.value.1)
    ensures r.Some? ==> forall i, j :: from <= i < r.value.0 ==> !OrdinalSpan(s, i, j)
    ensures r.None? ==> forall i, j :: from <= i ==> !OrdinalSpan(s, i, j)
    decreases |s| - from
  {
    match OrdinalEndAt(s, from)
    case Some(j) => Some((from, j))
    case None =>
      if from == |s| then None else FindOrdinal(s, from + 1)
  }

  /** The digit group of the leftmost match of 第(\d+)試合, or `None` when
      the pattern does not occur anywhere in `s`. */
  function OrdinalDigits(s: string): (r: Option<string>)
    ensures r.None? <==> !HasOrdinal(s)
    ensures r.Some? ==> exists i: nat, j: nat :: LeftmostOrdinal(s, i, j) && r.value == s[i + 1..j]
    ensures r.Some? ==> |r.value| >= 1 && AllDigits(r.value)
  {
    match FindOrdinal(s, 0)
    case None => None
    case Some((i, j)) =>
      assert LeftmostOrdinal(s, i, j);
      Some(s[i + 1..j])
  }

  /** A match with no match starting before it is the leftmost one, and
      its digit group is what the search reports. */
  lemma LeftmostDigits(s: string, i0: nat, j0: nat)
    requires OrdinalSpan(s, i0, j0)
    requires forall i: nat, j: nat :: i < i0 ==> !OrdinalSpan(s, i, j)
    ensures OrdinalDigits(s) == Some(s[i0 + 1..j0])
  {
    assert LeftmostOrdinal(s, i0, j0);
    var r := OrdinalDigits(s);
    var i: nat, j: nat :| LeftmostOrdinal(s, i, j) && r.value == s[i + 1..j];
    assert i == i0;
    SpanUnique(s, i0, j0, j);
  }

  /** A match starting before a 第 at index `m` ends, 試合 included, at or
      before `m`: that 第 is neither a digit nor part of 試合. */
  lemma SpanStopsAt(s: string, m: nat, i: nat, j: nat)
    requires m < |s| && s[m] == '第'
    requires i < m && OrdinalSpan(s, i, j)
    ensures j + 2 <= m
  {
    OccursAtHead(s, "試合", j);
    assert s[j..j + 2][1] == s[j + 1];
    assert !IsDigit(s[m]);
  }

  /** Text placed before "第" cannot hold a match reaching past that 第, so
      when the text has no match of its own, no match starts inside it. */
  lemma NoSpanBefore(pre: string, rest: string)
    requires !HasOrdinal(pre) && |rest| > 0 && rest[0] == '第'
    ensures forall i: nat, j: nat :: i < |pre| ==> !OrdinalSpan(pre + rest, i, j)
  {
    var s := pre + rest;
    forall i: nat, j: nat | i < |pre| && OrdinalSpan(s, i, j)
      ensures false
    {
      SpanStopsAt(s, |pre|, i, j);
      assert s[j..j + 2] == pre[j..j + 2];
      assert forall k :: i < k < j ==> s[k] == pre[k];
      assert OrdinalSpan(pre, i, j);
    }
  }

  /** A heading "…第N試合…" whose text before the marker holds no match of
      the pattern yields exactly the numeral of N. */
  lemma DigitsOfHeading(pre: string, n: nat, post: string)
    requires !HasOrdinal(pre)
    ensures OrdinalDigits(pre + "第" + Decimal(n) + "試合" + post) == Some(Decimal(n))
  {
    var ds := Decimal(n);
    var rest := "第" + ds + "試合" + post;
    var s := pre + rest;
    assert s == pre + "第" + ds + "試合" + post;
    var i0, j0 := |pre|, |pre| + 1 + |ds|;
    assert s[i0 + 1..j0] == ds;
    assert s[j0..j0 + 2] == "試合";
    assert OrdinalSpan(s, i0, j0);
    NoSpanBefore(pre, rest);
    LeftmostDigits(s, i0, j0);
  }
}
