/**
 * The account registry: the process-wide directory of accounts keyed by
 * username, the load pass that rebuilds it from the accounts file, and the
 * save that merges the live accounts with the character records already on
 * disk. The static dictionary of the registry is one instance of
 * `AccountDirectory`; file and XML I/O are replaced by the abstract file of
 * `AccountFile` and by the effect a save has on it.
 */
module Accounts {
  import opened Wrappers
  import opened Usernames
  import opened AccountFile
  import opened Merge

  /** The key an account is stored under: its username, compared ordinally
      by the default comparer, folded by the case-insensitive one. */
  function KeyOf(ignoreCase: bool, username: string): string {
    if ignoreCase then Fold(username) else username
  }

  /** Every key of the dictionary is the key of the account stored under it. */
  ghost predicate Keyed(m: map<string, Account>, ignoreCase: bool) {
    forall k :: k in m ==> k == KeyOf(ignoreCase, m[k].username)
  }

  /** In a keyed dictionary no account is stored twice, so there are as many
      accounts as keys. */
  lemma {:induction false} KeyedValuesCount(m: map<string, Account>, ignoreCase: bool)
    requires Keyed(m, ignoreCase)
    ensures |m.Values| == |m|
    decreases |m|
  {
    if m != map[] {
      var k :| k in m;
      var rest := m - {k};
      assert Keyed(rest, ignoreCase);
      KeyedValuesCount(rest, ignoreCase);
      forall v | v in m.Values
        ensures v in rest.Values + {m[k]}
      {
        var k' :| k' in m && m[k'] == v;
        if k' != k {
          assert k' in rest;
        }
      }
      assert m.Values == rest.Values + {m[k]};
      assert m.Keys == rest.Keys + {k};
    }
  }

  /** What a load pass over the given entries puts into a fresh
      case-insensitive directory: each entry whose account could be
      constructed is added under its folded username, a later one replacing
      an earlier one with the same key. */
  function LoadedMap(es: seq<Entry>): (m: map<string, Account>)
    ensures Keyed(m, true)
  {
    if es == [] then map[]
    else
      var m := LoadedMap(es[..|es| - 1]);
      match es[|es| - 1].construct
      case None => m
      case Some(a) => m[Fold(a.username) := a]
  }

  /** Fault isolation at load: an entry whose account construction threw
      changes nothing about the accounts loaded from its siblings. */
  lemma {:induction false} FailedConstructionIsolated(a: seq<Entry>, e: Entry, b: seq<Entry>)
    requires e.construct.None?
    ensures LoadedMap(a + [e] + b) == LoadedMap(a + b)
    decreases |b|
  {
    if b == [] {
      assert (a + [e] + b)[..|a + [e] + b| - 1] == a;
      assert a + b == a;
    } else {
      var b' := b[..|b| - 1];
      assert (a + [e] + b)[..|a + [e] + b| - 1] == a + [e] + b';
      assert (a + b)[..|a + b| - 1] == a + b';
      assert (a + [e] + b)[|a + [e] + b| - 1] == b[|b| - 1] == (a + b)[|a + b| - 1];
      FailedConstructionIsolated(a, e, b');
    }
  }

  /** The account loaded under a key is the last constructed one with that key. */
  lemma {:induction false} LastConstructedWins(es: seq<Entry>, i: nat)
    requires i < |es| && es[i].construct.Some?
    requires forall j :: i < j < |es| && es[j].construct.Some? ==>
      Fold(es[j].construct.value.username) != Fold(es[i].construct.value.username)
    ensures Fold(es[i].construct.value.username) in LoadedMap(es)
    ensures LoadedMap(es)[Fold(es[i].construct.value.username)] == es[i].construct.value
    decreases |es|
  {
    if i < |es| - 1 {
      var init := es[..|es| - 1];
      assert init[i] == es[i];
      forall j | i < j < |init| && init[j].construct.Some?
        ensures Fold(init[j].construct.value.username) != Fold(init[i].construct.value.username)
      {
        assert init[j] == es[j];
      }
      LastConstructedWins(init, i);
    }
  }

  /** No key is loaded that no constructed account has. */
  lemma {:induction false} NeverConstructedAbsent(es: seq<Entry>, key: string)
    requires forall j :: 0 <= j < |es| && es[j].construct.Some? ==> Fold(es[j].construct.value.username) != key
    ensures key !in LoadedMap(es)
    decreases |es|
  {
    if es != [] {
      var init := es[..|es| - 1];
      forall j | 0 <= j < |init| && init[j].construct.Some?
        ensures Fold(init[j].construct.value.username) != key
      {
        assert init[j] == es[j];
      }
      NeverConstructedAbsent(init, key);
    }
  }

  /** The number of entries whose account could be constructed. */
  function ConstructedCount(es: seq<Entry>): nat {
    if es == [] then 0
    else ConstructedCount(es[..|es| - 1]) + (if es[|es| - 1].construct.Some? then 1 else 0)
  }

  /** When no two constructed accounts share a username ignoring case, every
      one of them is loaded: a malformed entry costs exactly itself. */
  lemma {:induction false} DistinctAccountsAllLoaded(es: seq<Entry>)
    requires forall i, j :: 0 <= i < j < |es| && es[i].construct.Some? && es[j].construct.Some? ==>
      Fold(es[i].construct.value.username) != Fold(es[j].construct.value.username)
    ensures |LoadedMap(es)| == ConstructedCount(es)
    decreases |es|
  {
    if es != [] {
      var init := es[..|es| - 1];
      var last := es[|es| - 1];
      forall i, j | 0 <= i < j < |init| && init[i].construct.Some? && init[j].construct.Some?
        ensures Fold(init[i].construct.value.username) != Fold(init[j].construct.value.username)
      {
        assert init[i] == es[i] && init[j] == es[j];
      }
      DistinctAccountsAllLoaded(init);
      if last.construct.Some? {
        var key := Fold(last.construct.value.username);
        forall j | 0 <= j < |init| && init[j].construct.Some?
          ensures Fold(init[j].construct.value.username) != key
        {
          assert init[j] == es[j];
        }
        NeverConstructedAbsent(init, key);
      }
    }
  }

  /** The outcome of a load, as its caller sees it. */
  datatype LoadOutcome = Loaded | LoadThrew

  /** One account as a save writes it, with the character records merged in. */
  datatype SavedAccount = SavedAccount(account: Account, characters: seq<CharacterRecord>)

  /** What a save leaves in the accounts file. Every failure is swallowed;
      a failure before the file is opened leaves it untouched, one while
      writing leaves the `count` attribute and the entries written so far. */
  datatype SaveEffect =
    | Untouched
    | Written(count: nat, entries: seq<SavedAccount>, complete: bool)

  /** The accounts a save wrote. */
  function WrittenAccounts(entries: seq<SavedAccount>): set<Account> {
    set i | 0 <= i < |entries| :: entries[i].account
  }

  /** The records a save merges from, read from the file before it is rewritten. */
  function OldRecords(file: AccountsFile): seq<AccountRecord> {
    if file.Document? then AccountRecords(file.entries) else []
  }

  /** Every written account was written with its merged characters, and writing it did not throw. */
  ghost predicate AllMerged(written: seq<SavedAccount>, records: seq<AccountRecord>, fails: Account -> bool) {
    forall i :: 0 <= i < |written| ==>
      !fails(written[i].account) && written[i].characters == CharactersFor(records, written[i].account.username)
  }

  /** No account was written twice. */
  ghost predicate WrittenOnce(written: seq<SavedAccount>) {
    forall i, j :: 0 <= i < j < |written| ==> written[i].account != written[j].account
  }

  /** The writing loop of a save: writes the accounts one at a time, in an
      order of its choosing, each with its merged characters, and stops at
      the first account whose writing throws. */
  method WriteAccounts(live: set<Account>, records: seq<AccountRecord>, fails: Account -> bool)
    returns (written: seq<SavedAccount>, failed: bool)
    ensures forall i :: 0 <= i < |written| ==>
      && written[i].account in live
      && !fails(written[i].account)
      && written[i].characters == CharactersFor(records, written[i].account.username)
    ensures forall i, j :: 0 <= i < j < |written| ==> written[i].account != written[j].account
    ensures failed <==> exists a :: a in live && fails(a)
    ensures !failed ==> WrittenAccounts(written) == live && |written| == |live|
  {
    var remaining := live;
    written := [];
    while remaining != {}
      invariant remaining <= live
      invariant WrittenAccounts(written) == live - remaining
      invariant |written| + |remaining| == |live|
      invariant AllMerged(written, records, fails)
      invariant WrittenOnce(written)
      decreases |remaining|
    {
      var a :| a in remaining;
      if fails(a) {
        WrittenAccountsWithin(written, live);
        return written, true;
      }
      var saved := SavedAccount(a, CharactersFor(records, a.username));
      WriteOne(written, saved, records, fails);
      written := written + [saved];
      remaining := remaining - {a};
    }
    WrittenAccountsWithin(written, live);
    forall b | b in live
      ensures !fails(b)
    {
      assert b in WrittenAccounts(written);
      var i :| 0 <= i < |written| && written[i].account == b;
    }
    failed := false;
  }

  /** Writing one more account, not written before, keeps the loop's facts. */
  lemma WriteOne(written: seq<SavedAccount>, saved: SavedAccount, records: seq<AccountRecord>, fails: Account -> bool)
    requires AllMerged(written, records, fails) && WrittenOnce(written)
    requires !fails(saved.account) && saved.characters == CharactersFor(records, saved.account.username)
    requires saved.account !in WrittenAccounts(written)
    ensures AllMerged(written + [saved], records, fails) && WrittenOnce(written + [saved])
    ensures WrittenAccounts(written + [saved]) == WrittenAccounts(written) + {saved.account}
  {
    var next := written + [saved];
    assert forall i :: 0 <= i < |written| ==> next[i] == written[i];
    assert next[|written|] == saved;
    assert forall i :: 0 <= i < |written| ==> written[i].account in WrittenAccounts(written);
  }

  /** Every entry of a run of written accounts is one of a set that contains them all. */
  lemma WrittenAccountsWithin(written: seq<SavedAccount>, live: set<Account>)
    requires WrittenAccounts(written) <= live
    ensures forall i :: 0 <= i < |written| ==> written[i].account in live
  {
    forall i | 0 <= i < |written|
      ensures written[i].account in live
    {
      assert written[i].account in WrittenAccounts(written);
    }
  }

  /** In a case-insensitive directory, looking up the folded username finds
      the same account as looking up the username itself. */
  lemma FoldedLookup(d: AccountDirectory, username: string)
    requires d.Valid() && d.ignoreCase
    ensures d.GetAccount(Fold(username)) == d.GetAccount(username)
  {
    FoldEqualsIgnoreCase(username);
  }

  /** In a case-insensitive directory, usernames equal ignoring case find the same account. */
  lemma CaseInsensitiveLookups(d: AccountDirectory)
    requires d.Valid() && d.ignoreCase
    ensures forall u, v :: EqualsIgnoreCase(u, v) ==> d.GetAccount(u) == d.GetAccount(v)
  {
  }

  class AccountDirectory {
    var accounts: map<string, Account>
    var ignoreCase: bool

    ghost predicate Valid()
      reads this
    {
      Keyed(accounts, ignoreCase)
    }

    /** The directory at process start: empty, with the default (case-sensitive) comparer. */
    constructor ()
      ensures Valid()
      ensures accounts == map[] && !ignoreCase
    {
      accounts := map[];
      ignoreCase := false;
    }

    /** The key the directory's current comparer files a username under. */
    function Key(username: string): string
      reads this
    {
      KeyOf(ignoreCase, username)
    }

    /** `GetAccounts`: the live accounts. */
    function GetAccounts(): (live: set<Account>)
      reads this
      requires Valid()
      ensures forall a :: a in live ==> Key(a.username) in accounts && accounts[Key(a.username)] == a
      ensures forall k :: k in accounts ==> accounts[k] in live
    {
      accounts.Values
    }

    /** `Count`: the number of live accounts. */
    function Count(): (n: nat)
      reads this
      requires Valid()
      ensures n == |GetAccounts()|
    {
      KeyedValuesCount(accounts, ignoreCase);
      |accounts|
    }

    /** `GetAccount`: the live account whose username equals the given one
        under the current comparer, if there is one. */
    function GetAccount(username: string): (r: Option<Account>)
      reads this
      requires Valid()
      ensures r.Some? ==> r.value in GetAccounts() && Key(r.value.username) == Key(username)
      ensures r.None? ==> forall a :: a in GetAccounts() ==> Key(a.username) != Key(username)
    {
      if Key(username) in accounts then Some(accounts[Key(username)]) else None
    }

    /** `Add`: files the account under its username, silently replacing any
        account already filed under an equal key. */
    method Add(a: Account)
      requires Valid()
      modifies this
      ensures Valid() && ignoreCase == old(ignoreCase)
      ensures accounts == old(accounts)[Key(a.username) := a]
      ensures GetAccount(a.username) == Some(a)
      ensures Count() == old(Count()) + (if old(GetAccount(a.username)).Some? then 0 else 1)
      ensures forall u :: Key(u) != Key(a.username) ==> GetAccount(u) == old(GetAccount(u))
    {
      accounts := accounts[Key(a.username) := a];
    }

    /** `Remove`: drops the account filed under the username; a no-op when
        there is none. */
    method Remove(username: string)
      requires Valid()
      modifies this
      ensures Valid() && ignoreCase == old(ignoreCase)
      ensures accounts == old(accounts) - {Key(username)}
      ensures GetAccount(username) == None
      ensures old(GetAccount(username)).None? ==> accounts == old(accounts)
      ensures Count() == old(Count()) - (if old(GetAccount(username)).Some? then 1 else 0)
      ensures forall u :: Key(u) != Key(username) ==> GetAccount(u) == old(GetAccount(u))
    {
      accounts := accounts - {Key(username)};
    }

    /** `Load`: replaces the directory by a fresh case-insensitive one and
        adds every account of the file that can be constructed, skipping
        those whose construction throws. A missing file leaves it empty; a
        file that is not a readable document throws after the reset. */
    method Load(file: AccountsFile) returns (outcome: LoadOutcome)
      modifies this
      ensures Valid() && ignoreCase
      ensures accounts == if file.Document? then LoadedMap(file.entries) else map[]
      ensures outcome == if file.Malformed? then LoadThrew else Loaded
      ensures forall u, v :: EqualsIgnoreCase(u, v) ==> GetAccount(u) == GetAccount(v)
    {
      accounts := map[];
      ignoreCase := true;
      if file.Malformed? {
        CaseInsensitiveLookups(this);
        return LoadThrew;
      }
      if file.Document? {
        var entries := file.entries;
        var i := 0;
        while i < |entries|
          invariant 0 <= i <= |entries|
          invariant Valid() && ignoreCase
          invariant accounts == LoadedMap(entries[..i])
        {
          assert entries[..i + 1][..i] == entries[..i];
          match entries[i].construct {
            case Some(a) => Add(a);
            case None =>
          }
          i := i + 1;
        }
        assert entries[..|entries|] == entries;
      }
      CaseInsensitiveLookups(this);
      return Loaded;
    }

    /** `Save`: re-reads the records of the old file, then writes a `count`
        equal to the directory's size and one entry per live account, each
        with the characters of its first matching old record. `opens` says
        whether the directory and the file could be opened for writing;
        `fails` says of an account whether writing it throws. No failure
        escapes: the effect on the file is returned instead. */
    method Save(file: AccountsFile, opens: bool, fails: Account -> bool) returns (effect: SaveEffect)
      requires Valid()
      ensures effect.Untouched? <==> file.Malformed? || !opens
      ensures effect.Written? ==> effect.count == Count()
      ensures effect.Written? ==> forall i :: 0 <= i < |effect.entries| ==>
        && effect.entries[i].account in GetAccounts()
        && !fails(effect.entries[i].account)
        && effect.entries[i].characters == CharactersFor(OldRecords(file), effect.entries[i].account.username)
      ensures effect.Written? ==> forall i, j :: 0 <= i < j < |effect.entries| ==>
        effect.entries[i].account != effect.entries[j].account
      ensures effect.Written? ==> (effect.complete <==> forall a :: a in GetAccounts() ==> !fails(a))
      ensures effect.Written? && effect.complete ==>
        WrittenAccounts(effect.entries) == GetAccounts() && |effect.entries| == effect.count
    {
      var loaded := LoadAccountRecords(file);
      if loaded.None? || !opens {
        return Untouched;
      }
      var records := loaded.value;
      var count := Count();
      var written, failed := WriteAccounts(GetAccounts(), records, fails);
      return Written(count, written, !failed);
    }
  }
}
