/**
 * The merge step of a save: every live account is written with the
 * character records of the first record, in record order, whose username
 * equals its own ignoring case, or with no character records when none does.
 */
module Merge {
  import opened Wrappers
  import opened Usernames
  import opened AccountFile

  predicate Matches(r: AccountRecord, username: string) {
    EqualsIgnoreCase(username, r.username)
  }

  /** The index of the first record matching the username, if any. */
  function FirstMatch(records: seq<AccountRecord>, username: string): (r: Option<nat>)
    ensures r.Some? ==> r.value < |records| && Matches(records[r.value], username)
    ensures r.Some? ==> forall j :: 0 <= j < r.value ==> !Matches(records[j], username)
    ensures r.None? ==> forall j :: 0 <= j < |records| ==> !Matches(records[j], username)
  {
    if records == [] then None
    else if Matches(records[0], username) then Some(0)
    else match FirstMatch(records[1..], username)
      case None => None
      case Some(i) => Some(i + 1)
  }

  /** `FirstOrDefault(match)?.Characters ?? new List<CharacterRecord>()`. */
  function CharactersFor(records: seq<AccountRecord>, username: string): (cs: seq<CharacterRecord>)
    ensures (exists j :: 0 <= j < |records| && Matches(records[j], username)) ==>
      exists i :: 0 <= i < |records| && Matches(records[i], username) && cs == records[i].characters
    ensures (forall j :: 0 <= j < |records| ==> !Matches(records[j], username)) ==> cs == []
  {
    match FirstMatch(records, username)
    case Some(i) => records[i].characters
    case None => []
  }

  /** Merge preservation: the first matching record's characters are carried over. */
  lemma FirstMatchPreserved(records: seq<AccountRecord>, username: string, i: nat)
    requires i < |records| && Matches(records[i], username)
    requires forall j :: 0 <= j < i ==> !Matches(records[j], username)
    ensures CharactersFor(records, username) == records[i].characters
  {
  }

  /** A live account without a record is written with an empty list, not an error. */
  lemma UnmatchedGetsNoCharacters(records: seq<AccountRecord>, username: string)
    requires forall j :: 0 <= j < |records| ==> !Matches(records[j], username)
    ensures CharactersFor(records, username) == []
  {
  }

  /** Usernames equal ignoring case are merged with the same characters. */
  lemma CharactersForIgnoresCase(records: seq<AccountRecord>, u: string, v: string)
    requires EqualsIgnoreCase(u, v)
    ensures CharactersFor(records, u) == CharactersFor(records, v)
  {
  }

  /** Records after a match never change the merge: the first one wins. */
  lemma {:induction false} FirstMatchWins(rs: seq<AccountRecord>, later: seq<AccountRecord>, username: string)
    requires exists j :: 0 <= j < |rs| && Matches(rs[j], username)
    ensures CharactersFor(rs + later, username) == CharactersFor(rs, username)
    decreases |rs|
  {
    if !Matches(rs[0], username) {
      var j :| 0 <= j < |rs| && Matches(rs[j], username);
      assert rs[1..][j - 1] == rs[j];
      assert (rs + later)[1..] == rs[1..] + later;
      FirstMatchWins(rs[1..], later, username);
      SkipUnmatchedHead(rs + later, username);
      SkipUnmatchedHead(rs, username);
    } else {
      FirstRecordMatches(rs + later, username);
      FirstRecordMatches(rs, username);
    }
  }

  /** An entry of the old file that was skipped (it threw, or its username is
      blank) does not change what any account is saved with. */
  lemma SkippedEntryInvisibleToMerge(a: seq<Entry>, e: Entry, b: seq<Entry>, username: string)
    requires RecordOf(e).None?
    ensures CharactersFor(AccountRecords(a + [e] + b), username) == CharactersFor(AccountRecords(a + b), username)
  {
    SkippedEntryIsolated(a, e, b);
  }

  /** End to end over the old file: an account whose first matching kept entry
      carries characters `cs` is saved with exactly `cs`. */
  lemma {:induction false} FirstKeptEntryPreserved(es: seq<Entry>, i: nat, username: string)
    requires i < |es| && RecordOf(es[i]).Some? && Matches(RecordOf(es[i]).value, username)
    requires forall j :: 0 <= j < i ==> RecordOf(es[j]).None? || !Matches(RecordOf(es[j]).value, username)
    ensures CharactersFor(AccountRecords(es), username) == RecordOf(es[i]).value.characters
  {
    var r := RecordOf(es[i]).value;
    var a, b := es[..i], es[i + 1..];
    assert es == a + [es[i]] + b;
    KeptEntryInPlace(a, es[i], b);
    var before, after := AccountRecords(a), [r] + AccountRecords(b);
    assert AccountRecords(es) == before + after;
    NoMatchBefore(es, i, username);
    NoMatchPrefix(before, after, username);
    FirstRecordMatches(after, username);
  }

  /** A first record that matches is the one taken. */
  lemma FirstRecordMatches(records: seq<AccountRecord>, username: string)
    requires records != [] && Matches(records[0], username)
    ensures CharactersFor(records, username) == records[0].characters
  {
  }

  /** No record of the entries before the first matching kept one matches. */
  lemma NoMatchBefore(es: seq<Entry>, i: nat, username: string)
    requires i <= |es|
    requires forall j :: 0 <= j < i ==> RecordOf(es[j]).None? || !Matches(RecordOf(es[j]).value, username)
    ensures forall j :: 0 <= j < |AccountRecords(es[..i])| ==> !Matches(AccountRecords(es[..i])[j], username)
  {
    var before := AccountRecords(es[..i]);
    forall j | 0 <= j < |before|
      ensures !Matches(before[j], username)
    {
      RecordsMembership(es[..i], before[j]);
      var k :| 0 <= k < i && RecordOf(es[..i][k]) == Some(before[j]);
      assert es[..i][k] == es[k];
    }
  }

  /** Records without a match in front do not change which record is found. */
  lemma {:induction false} NoMatchPrefix(before: seq<AccountRecord>, after: seq<AccountRecord>, username: string)
    requires forall j :: 0 <= j < |before| ==> !Matches(before[j], username)
    ensures CharactersFor(before + after, username) == CharactersFor(after, username)
    decreases |before|
  {
    if before != [] {
      var whole := before + after;
      assert whole[0] == before[0];
      assert whole[1..] == before[1..] + after;
      SkipUnmatchedHead(whole, username);
      NoMatchPrefix(before[1..], after, username);
    } else {
      assert before + after == after;
    }
  }

  /** A first record that does not match is passed over. */
  lemma SkipUnmatchedHead(records: seq<AccountRecord>, username: string)
    requires records != [] && !Matches(records[0], username)
    ensures CharactersFor(records, username) == CharactersFor(records[1..], username)
  {
    match FirstMatch(records[1..], username)
    case None =>
    case Some(i) => assert records[i + 1] == records[1..][i];
  }
}
