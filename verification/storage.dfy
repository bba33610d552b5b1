/**
  The two pure pieces of src/storage.ts: the row of member columns that
  `write` puts beside each match (one column per roster entry, in a fixed
  order), and the stretch of tokens `read` hands to the match-info pass.
 */
module Storage {
  import opened Wrappers
  import opened Errors
  import opened Text
  import opened Tokens
  import opened LogPass

  /** A roster column: a single name, or an array of spellings. */
  datatype RosterEntry = Plain(name: string) | Aliases(names: seq<string>)

  /** The fixed column order of the member block of the sheet. */
  const Roster: seq<RosterEntry> := [
    Plain("ゆうやみ"),
    Aliases(["Marie", "まりえ"]),
    Aliases(["Marie（こうすけ）", "こうすけ"]),
    Plain("若丸"),
    Aliases(["ようじょ", "ょぅl〝ょ"]),
    Plain("源"),
    Aliases(["水金", "かけちよ"]),
    Plain("あっちゃん"),
    Plain("透"),
    Plain("なおえ"),
    Plain("すっちん")
  ]

  /** `new Set(order).has(name)`: the set compares a string with the array
      entries by identity, so only the single-name entries admit a name. */
  predicate RegisteredIn(roster: seq<RosterEntry>, name: string)
    ensures RegisteredIn(roster, name) <==>
      exists i :: 0 <= i < |roster| && roster[i].Plain? && roster[i].name == name
    ensures (forall i :: 0 <= i < |roster| ==> roster[i].Aliases?) ==> !RegisteredIn(roster, name)
  {
    Plain(name) in roster
  }

  predicate IsRegistered(name: string) {
    RegisteredIn(Roster, name)
  }

  /** What a roster column holds for a list of participants: its name when
      it is a single name that takes part, and the empty string otherwise. */
  function Column(entry: RosterEntry, names: seq<string>): (c: string)
    ensures c != "" ==> entry.Plain? && c == entry.name && c in names
    ensures entry.Plain? && entry.name in names ==> c == entry.name
    ensures entry.Aliases? ==> c == ""
  {
    match entry
    case Plain(n) => if n in names then n else ""
    case Aliases(_) => ""
  }

  /** The member columns of one row, in roster order. */
  function RowFor(roster: seq<RosterEntry>, names: seq<string>): (row: seq<string>)
    ensures |row| == |roster|
    ensures forall i :: 0 <= i < |roster| ==> row[i] == Column(roster[i], names)
  {
    seq(|roster|, i requires 0 <= i < |roster| => Column(roster[i], names))
  }

  function ColumnRow(names: seq<string>): (row: seq<string>)
    ensures |row| == |Roster|
    ensures forall i :: 0 <= i < |Roster| ==> row[i] == Column(Roster[i], names)
  {
    RowFor(Roster, names)
  }

  /** The row depends on which names take part only, not on their order or
      on repetitions. */
  lemma ColumnRowIgnoresOrder(a: seq<string>, b: seq<string>)
    requires forall n :: n in a <==> n in b
    ensures ColumnRow(a) == ColumnRow(b)
  {
  }

  /** With nobody listed every column is blank; the array entries are blank
      whoever takes part. */
  lemma BlankColumns(names: seq<string>)
    ensures forall i :: 0 <= i < |Roster| ==> ColumnRow([])[i] == ""
    ensures forall i :: 0 <= i < |Roster| && Roster[i].Aliases? ==> ColumnRow(names)[i] == ""
  {
  }

  /** Only the single-name entries can ever be filled in: a name from
      an array entry is rejected, while the single names are accepted. */
  lemma AliasSpellingsRejected()
    ensures !IsRegistered("Marie") && !IsRegistered("まりえ") && !IsRegistered("こうすけ")
    ensures IsRegistered("ゆうやみ") && IsRegistered("すっちん")
  {
  }

  /** The two `forEach` loops of `getMemberColumnValues` for any roster:
      the first unregistered name throws; otherwise each column is looked
      up with `indexOf`. */
  method RosterColumns(roster: seq<RosterEntry>, names: seq<string>) returns (r: Result<seq<string>, Error>)
    ensures r.Failure? <==> exists i :: 0 <= i < |names| && !RegisteredIn(roster, names[i])
    ensures r.Failure? ==> exists i ::
      && 0 <= i < |names|
      && !RegisteredIn(roster, names[i])
      && r.error == UnregisteredName(names[i])
      && forall j :: 0 <= j < i ==> RegisteredIn(roster, names[j])
    ensures r.Success? ==> r.value == RowFor(roster, names)
  {
    var k := 0;
    while k < |names|
      invariant 0 <= k <= |names|
      invariant forall j :: 0 <= j < k ==> RegisteredIn(roster, names[j])
    {
      if !RegisteredIn(roster, names[k]) {
        return Failure(UnregisteredName(names[k]));
      }
      k := k + 1;
    }
    var result := seq(|roster|, _ => "");
    var i := 0;
    while i < |roster|
      invariant 0 <= i <= |roster| && |result| == |roster|
      invariant forall j :: 0 <= j < i ==> result[j] == Column(roster[j], names)
    {
      match roster[i] {
        case Plain(target) =>
          var at := FindIndexOrMinusOne(names, n => n == target);
          if at != -1 {
            result := result[i := names[at]];
          } else {
            result := result[i := ""];
          }
        case Aliases(_) =>
          // `indexOf` of an array in an array of strings finds nothing.
          result := result[i := ""];
      }
      i := i + 1;
    }
    return Success(result);
  }

  /** `getMemberColumnValues`: the first unregistered name throws; otherwise
      every single-name column holds its name when it takes part. */
  method GetMemberColumnValues(names: seq<string>) returns (r: Result<seq<string>, Error>)
    ensures r.Failure? <==> exists i :: 0 <= i < |names| && !IsRegistered(names[i])
    ensures r.Failure? ==> exists i ::
      && 0 <= i < |names|
      && !IsRegistered(names[i])
      && r.error == UnregisteredName(names[i])
      && forall j :: 0 <= j < i ==> IsRegistered(names[j])
    ensures r.Success? ==> |r.value| == 11 && r.value == ColumnRow(names)
  {
    r := RosterColumns(Roster, names);
  }

  /** The spellings a roster column stands for. */
  function Spellings(entry: RosterEntry): (ns: seq<string>)
    ensures entry.Plain? ==> ns == [entry.name]
    ensures entry.Aliases? ==> ns == entry.names
  {
    match entry
    case Plain(n) => [n]
    case Aliases(ns) => ns
  }

  /** The evident intent of the roster check: a name is known when it is one
      of the spellings of some column. */
  predicate IsListed(name: string) {
    ListedIn(Roster, name)
  }

  predicate ListedIn(roster: seq<RosterEntry>, name: string) {
    exists i :: 0 <= i < |roster| && name in Spellings(roster[i])
  }

  /** Every name the as-written check accepts is listed, and the spellings of
      the array entries are listed although that check rejects them. */
  lemma ListedExtendsRegistered(name: string)
    ensures IsRegistered(name) ==> IsListed(name)
    ensures IsListed("Marie") && !IsRegistered("Marie")
  {
    if IsRegistered(name) {
      var i :| 0 <= i < |Roster| && Roster[i] == Plain(name);
      assert name in Spellings(Roster[i]);
    }
    assert "Marie" in Spellings(Roster[1]);
  }

  /** A participant matches a column when the name is one of its spellings. */
  predicate SpellingOf(entry: RosterEntry, name: string) {
    name in Spellings(entry)
  }

  /** No roster column is spelt as the empty string, so an empty column
      means an absent member. */
  lemma RosterSpellingsNonEmpty()
    ensures forall i :: 0 <= i < |Roster| ==> !SpellingOf(Roster[i], "")
  {
  }

  /** The column as evidently intended: the first participant whose name is
      one of the column's spellings, as that participant wrote it, or the
      empty string when none is. */
  function IntendedColumn(entry: RosterEntry, names: seq<string>): (c: string)
    requires !SpellingOf(entry, "")
    ensures c == "" <==> forall k :: 0 <= k < |names| ==> !SpellingOf(entry, names[k])
    ensures c != "" ==> exists k :: 0 <= k < |names| && names[k] == c && SpellingOf(entry, c)
  {
    match FindIndex(names, n => SpellingOf(entry, n))
    case None => ""
    case Some(k) => names[k]
  }

  /** The first name no roster column spells, if any. */
  function FirstUnlisted(roster: seq<RosterEntry>, names: seq<string>): (r: Option<nat>)
    ensures r.None? <==> forall i :: 0 <= i < |names| ==> ListedIn(roster, names[i])
    ensures r.Some? ==> r.value < |names| && !ListedIn(roster, names[r.value])
    ensures r.Some? ==> forall j :: 0 <= j < r.value ==> ListedIn(roster, names[j])
  {
    FindIndex(names, n => !ListedIn(roster, n))
  }

  /** The columns of a roster, each the intended column for `names`. */
  function IntendedRow(roster: seq<RosterEntry>, names: seq<string>): (row: seq<string>)
    requires forall i :: 0 <= i < |roster| ==> !SpellingOf(roster[i], "")
    ensures |row| == |roster|
    ensures forall i :: 0 <= i < |roster| ==> row[i] == IntendedColumn(roster[i], names)
  {
    seq(|roster|, i requires 0 <= i < |roster| => IntendedColumn(roster[i], names))
  }

  /** The row of `getMemberColumnValues` as evidently intended: every
      spelling of a roster column is accepted, and the column shows the
      spelling used. */
  function GetMemberColumnValuesIntended(names: seq<string>): (r: Result<seq<string>, Error>)
    ensures r.Failure? <==> exists i :: 0 <= i < |names| && !IsListed(names[i])
    ensures r.Failure? ==> exists i ::
      && 0 <= i < |names|
      && !IsListed(names[i])
      && r.error == UnregisteredName(names[i])
      && forall j :: 0 <= j < i ==> IsListed(names[j])
    ensures r.Success? ==> |r.value| == |Roster|
    ensures r.Success? ==> forall i :: 0 <= i < |Roster| ==>
      (r.value[i] == "" <==> forall k :: 0 <= k < |names| ==> !SpellingOf(Roster[i], names[k]))
    ensures r.Success? ==> forall i :: 0 <= i < |Roster| && r.value[i] != "" ==>
      r.value[i] in names && SpellingOf(Roster[i], r.value[i])
  {
    RosterSpellingsNonEmpty();
    match FirstUnlisted(Roster, names)
    case Some(i) => Failure(UnregisteredName(names[i]))
    case None => Success(IntendedRow(Roster, names))
  }

  /** The tokens `read` returns: after the first token mentioning 試合ログ
      (from the start when there is none) up to and including the first
      token mentioning （テンプレート）. */
  function ReadWindow(tokens: seq<Token>): (w: seq<Token>)
    ensures NoMention(tokens, TemplateMarker) ==> w == []
    ensures forall m: nat :: FirstMention(tokens, TemplateMarker, m) && NoMention(tokens, LogMarker) ==>
      w == tokens[..m + 1]
    ensures forall s: nat, m: nat :: FirstMention(tokens, LogMarker, s) && FirstMention(tokens, TemplateMarker, m) ==>
      w == if s < m then tokens[s + 1..m + 1] else []
    ensures |w| > 0 ==> Mentions(w[|w| - 1], TemplateMarker)
    ensures forall j :: 0 <= j < |w| - 1 ==> !Mentions(w[j], TemplateMarker)
  {
    var w := Between(tokens, MentionsLogMarker, MentionsTemplateMarker);
    assert forall i: nat :: FirstMention(tokens, LogMarker, i) ==> FirstWhere(tokens, MentionsLogMarker, i);
    assert forall i: nat :: FirstMention(tokens, TemplateMarker, i) ==> FirstWhere(tokens, MentionsTemplateMarker, i);
    w
  }

  /** When the log heading comes before the template, the window `read`
      returns is the loop window of main.ts without its heading token, cut
      after the template token. */
  lemma WindowsAgree(tokens: seq<Token>, s: nat, m: nat)
    requires FirstMention(tokens, LogMarker, s) && FirstMention(tokens, TemplateMarker, m)
    requires s < m
    ensures ReadWindow(tokens) == MainWindow(tokens)[1..m - s + 1]
  {
    assert tokens[s..][1..m - s + 1] == tokens[s + 1..m + 1];
  }
}
