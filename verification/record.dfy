/**
  A JavaScript object used as a record of string fields, built by assigning
  `result[key] = value` line by line. `kv` reads a line as a key and a value,
  or as nothing to assign.
 */
module Record {
  import opened Wrappers

  function KeyOf<T>(kv: T -> Option<(string, string)>, x: T): Option<string> {
    match kv(x)
    case None => None
    case Some((k, _)) => Some(k)
  }

  /** Some line of `xs` assigns key `k`. */
  ghost predicate SetBy<T>(xs: seq<T>, kv: T -> Option<(string, string)>, k: string) {
    exists i :: 0 <= i < |xs| && KeyOf(kv, xs[i]) == Some(k)
  }

  /** The last line of `xs` that assigns `k` assigns it `v`. */
  ghost predicate LastSetTo<T>(xs: seq<T>, kv: T -> Option<(string, string)>, k: string, v: string) {
    exists i ::
      && 0 <= i < |xs|
      && kv(xs[i]) == Some((k, v))
      && forall j :: i < j < |xs| ==> KeyOf(kv, xs[j]) != Some(k)
  }

  /** Appending a line sets the keys already set, plus the line's own. */
  lemma SetByExtend<T>(init: seq<T>, x: T, kv: T -> Option<(string, string)>, k: string)
    ensures SetBy(init + [x], kv, k) <==> SetBy(init, kv, k) || KeyOf(kv, x) == Some(k)
  {
    var xs := init + [x];
    if SetBy(init, kv, k) {
      var i :| 0 <= i < |init| && KeyOf(kv, init[i]) == Some(k);
      assert xs[i] == init[i];
    }
    assert xs[|init|] == x;
  }

  /** Appending a line that assigns another key keeps the last value of `k`. */
  lemma LastSetToExtend<T>(init: seq<T>, x: T, kv: T -> Option<(string, string)>, k: string, v: string)
    requires LastSetTo(init, kv, k, v) && KeyOf(kv, x) != Some(k)
    ensures LastSetTo(init + [x], kv, k, v)
  {
    var xs := init + [x];
    var i :| && 0 <= i < |init| && kv(init[i]) == Some((k, v))
             && forall j :: i < j < |init| ==> KeyOf(kv, init[j]) != Some(k);
    assert xs[i] == init[i];
    assert forall j :: i < j < |xs| ==> xs[j] == if j < |init| then init[j] else x;
  }

  /** The assignments of all lines in order: a key is present exactly when
      some line assigns it, and holds what the last such line assigned. */
  function Assign<T>(xs: seq<T>, kv: T -> Option<(string, string)>): (fields: map<string, string>)
    ensures forall k :: k in fields <==> SetBy(xs, kv, k)
    ensures forall k :: k in fields ==> LastSetTo(xs, kv, k, fields[k])
    decreases |xs|
  {
    if |xs| == 0 then map[]
    else
      var n := |xs| - 1;
      var init := xs[..n];
      var x := xs[n];
      var before := Assign(init, kv);
      assert xs == init + [x];
      assert forall k :: SetBy(xs, kv, k) <==> SetBy(init, kv, k) || KeyOf(kv, x) == Some(k) by {
        forall k
          ensures SetBy(xs, kv, k) <==> SetBy(init, kv, k) || KeyOf(kv, x) == Some(k)
        {
          SetByExtend(init, x, kv, k);
        }
      }
      var fields :=
        match kv(x)
        case None => before
        case Some((k, v)) => before[k := v];
      assert forall k | k in fields :: LastSetTo(xs, kv, k, fields[k]) by {
        forall k | k in fields
          ensures LastSetTo(xs, kv, k, fields[k])
        {
          if KeyOf(kv, x) == Some(k) {
            assert kv(xs[n]) == Some((k, fields[k]));
          } else {
            LastSetToExtend(init, x, kv, k, fields[k]);
          }
        }
      }
      fields
  }

  /** The fold one line at a time: the record of all lines but the last,
      updated by the last. */
  lemma AssignLast<T>(xs: seq<T>, kv: T -> Option<(string, string)>)
    requires |xs| > 0
    ensures Assign(xs, kv) == match kv(xs[|xs| - 1])
      case None => Assign(xs[..|xs| - 1], kv)
      case Some((k, v)) => Assign(xs[..|xs| - 1], kv)[k := v]
  {
  }

  /** The number of lines of `xs` that assign some key. */
  function SetCount<T>(xs: seq<T>, kv: T -> Option<(string, string)>): nat
    decreases |xs|
  {
    if |xs| == 0 then 0
    else SetCount(xs[..|xs| - 1], kv) + (if kv(xs[|xs| - 1]).Some? then 1 else 0)
  }

  /** The key and value of every line that assigns one, in order: the line
      at `i` lands after the ones its predecessors contributed. */
  function Collect<T>(xs: seq<T>, kv: T -> Option<(string, string)>): (out: seq<(string, string)>)
    ensures |out| == SetCount(xs, kv)
    ensures forall i :: 0 <= i < |xs| && kv(xs[i]).Some? ==>
      SetCount(xs[..i], kv) < |out| && kv(xs[i]) == Some(out[SetCount(xs[..i], kv)])
    decreases |xs|
  {
    if |xs| == 0 then []
    else
      var n := |xs| - 1;
      var init := xs[..n];
      var before := Collect(init, kv);
      assert forall i :: 0 <= i < n ==> xs[..i] == init[..i] && xs[i] == init[i];
      match kv(xs[n])
      case None => before
      case Some(p) => before + [p]
  }

  /** The assignments of all lines in order when reading a line can throw:
      the error of the first line that fails, or else the record `Assign`
      builds when failures are read as "nothing to assign". */
  function AssignOrFail<T(!new), E>(
    xs: seq<T>, f: T -> Result<(string, string), E>, kv: T -> Option<(string, string)>
  ): (r: Result<map<string, string>, E>)
    requires forall x :: kv(x) == f(x).ToOption()
    ensures r.Success? <==> forall i :: 0 <= i < |xs| ==> f(xs[i]).Success?
    ensures r.Success? ==> r.value == Assign(xs, kv)
    ensures r.Failure? ==> exists i ::
      && 0 <= i < |xs|
      && f(xs[i]) == Failure(r.error)
      && forall j :: 0 <= j < i ==> f(xs[j]).Success?
    decreases |xs|
  {
    if |xs| == 0 then Success(map[])
    else
      var n := |xs| - 1;
      assert forall i :: 0 <= i < n ==> xs[..n][i] == xs[i];
      match AssignOrFail(xs[..n], f, kv)
      case Failure(e) => Failure(e)
      case Success(before) =>
        match f(xs[n])
        case Failure(e) => Failure(e)
        case Success((k, v)) =>
          AssignLast(xs, kv);
          Success(before[k := v])
  }
}
