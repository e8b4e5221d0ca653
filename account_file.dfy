/**
 * The accounts file as the registry reads it, and the record extractor
 * (`LoadAccountRecords`): an ordered, fault-isolating filter over the
 * file's `account` entries. XML parsing is replaced by the abstract
 * entries below; the foreign code that reads one entry is represented by
 * the outcomes the entry carries.
 */
module AccountFile {
  import opened Wrappers
  import opened Usernames

  /** Opaque per-account payload, preserved as it was read. */
  datatype CharacterRecord = CharacterRecord(payload: string)

  /** An account as held by the directory: its username and its other, opaque, fields. */
  datatype Account = Account(username: string, fields: string)

  /** One `account` element, seen through the foreign code that reads it. */
  datatype Entry = Entry(
    construct: Option<Account>,                // `new Account(element)`; None when it throws
    username: Option<string>,                  // text of the `username` child; None when absent
    characters: Option<seq<CharacterRecord>>)  // `Account.LoadCharacterRecords`; None when it throws

  /** The accounts file as `GetAccountNode` sees it: missing (it returns null),
      unreadable as a document with an `accounts` root (it throws), or the
      sequence of its `account` entries in document order. */
  datatype AccountsFile = Missing | Malformed | Document(entries: seq<Entry>)

  /** A detached snapshot of one entry's username and character records. */
  datatype AccountRecord = AccountRecord(username: string, characters: seq<CharacterRecord>)

  /** The record one entry contributes, or None when the entry is skipped:
      its extraction threw, or its username text is blank. */
  function RecordOf(e: Entry): Option<AccountRecord> {
    match e.characters
    case None => None
    case Some(cs) =>
      var u := GetText(e.username, MissingUsername);
      if IsBlank(u) then None else Some(AccountRecord(u, cs))
  }

  /** An entry without a `username` element whose characters could be read is
      kept, under the placeholder username. */
  lemma MissingUsernameKept(e: Entry)
    requires e.username.None? && e.characters.Some?
    ensures RecordOf(e) == Some(AccountRecord(MissingUsername, e.characters.value))
  {
    MissingUsernameIsNotBlank();
  }

  /** The records of a sequence of entries, in entry order. */
  function AccountRecords(es: seq<Entry>): (rs: seq<AccountRecord>)
    ensures |rs| <= |es|
    ensures forall j :: 0 <= j < |rs| ==> !IsBlank(rs[j].username)
  {
    if es == [] then []
    else
      var rest := AccountRecords(es[..|es| - 1]);
      match RecordOf(es[|es| - 1])
      case None => rest
      case Some(r) => rest + [r]
  }

  /** `LoadAccountRecords`: walks the entries of the file in order and keeps
      every record whose extraction did not throw and whose username is not
      blank. A missing file yields no records; a document that cannot be
      read throws (None). */
  method LoadAccountRecords(file: AccountsFile) returns (records: Option<seq<AccountRecord>>)
    ensures file.Missing? ==> records == Some([])
    ensures file.Malformed? ==> records == None
    ensures file.Document? ==> records == Some(AccountRecords(file.entries))
  {
    if file.Malformed? {
      return None;
    }
    var accountRecords: seq<AccountRecord> := [];
    if file.Document? {
      var entries := file.entries;
      var i := 0;
      while i < |entries|
        invariant 0 <= i <= |entries|
        invariant accountRecords == AccountRecords(entries[..i])
      {
        assert entries[..i + 1][..i] == entries[..i];
        match RecordOf(entries[i]) {
          case Some(r) => accountRecords := accountRecords + [r];
          case None =>
        }
        i := i + 1;
      }
      assert entries[..|entries|] == entries;
    }
    return Some(accountRecords);
  }

  /** The records of two runs of entries are the records of each, in order. */
  lemma {:induction false} RecordsOfConcat(a: seq<Entry>, b: seq<Entry>)
    ensures AccountRecords(a + b) == AccountRecords(a) + AccountRecords(b)
    decreases |b|
  {
    if b == [] {
      assert a + b == a;
    } else {
      var b' := b[..|b| - 1];
      assert (a + b)[..|a + b| - 1] == a + b';
      assert (a + b)[|a + b| - 1] == b[|b| - 1];
      assert b[..|b| - 1] == b';
      RecordsOfConcat(a, b');
    }
  }

  /** One entry contributes exactly its own record. */
  lemma RecordsOfSingle(e: Entry)
    ensures AccountRecords([e]) == match RecordOf(e) case None => [] case Some(r) => [r]
  {
    assert [e][..0] == [];
  }

  /** Fault isolation: a skipped entry (one that threw or has a blank username)
      takes nothing from the records of its siblings. */
  lemma SkippedEntryIsolated(a: seq<Entry>, e: Entry, b: seq<Entry>)
    requires RecordOf(e).None?
    ensures AccountRecords(a + [e] + b) == AccountRecords(a + b)
  {
    RecordsOfConcat(a + [e], b);
    RecordsOfConcat(a, [e]);
    RecordsOfSingle(e);
    RecordsOfConcat(a, b);
  }

  /** A kept entry contributes its record between those of the entries around it. */
  lemma KeptEntryInPlace(a: seq<Entry>, e: Entry, b: seq<Entry>)
    requires RecordOf(e).Some?
    ensures AccountRecords(a + [e] + b) == AccountRecords(a) + [RecordOf(e).value] + AccountRecords(b)
  {
    RecordsOfConcat(a + [e], b);
    RecordsOfConcat(a, [e]);
    RecordsOfSingle(e);
  }

  /** Exactly the records of the kept entries are returned. */
  lemma {:induction false} RecordsMembership(es: seq<Entry>, r: AccountRecord)
    ensures r in AccountRecords(es) <==> exists i :: 0 <= i < |es| && RecordOf(es[i]) == Some(r)
    decreases |es|
  {
    if es != [] {
      var init := es[..|es| - 1];
      RecordsMembership(init, r);
      if exists i :: 0 <= i < |init| && RecordOf(init[i]) == Some(r) {
        var i :| 0 <= i < |init| && RecordOf(init[i]) == Some(r);
        assert es[i] == init[i];
      }
      if exists i :: 0 <= i < |es| && RecordOf(es[i]) == Some(r) {
        var i :| 0 <= i < |es| && RecordOf(es[i]) == Some(r);
        if i < |init| {
          assert init[i] == es[i];
        }
      }
    }
  }

  /** The number of records is the number of kept entries. */
  function KeptCount(es: seq<Entry>): nat {
    if es == [] then 0 else KeptCount(es[1..]) + (if RecordOf(es[0]).Some? then 1 else 0)
  }

  lemma {:induction false} RecordsCount(es: seq<Entry>)
    ensures |AccountRecords(es)| == KeptCount(es)
    decreases |es|
  {
    if es != [] {
      assert es == [es[0]] + es[1..];
      RecordsOfConcat([es[0]], es[1..]);
      RecordsOfSingle(es[0]);
      RecordsCount(es[1..]);
    }
  }
}
