# Account registry model

A Dafny model of the account registry of a multiplayer game server
(`Scripts/Accounting/Accounts.cs`). The registry is a process-wide directory
of accounts keyed by username. It is rebuilt from an accounts file at world
load and written back at world save. Before it overwrites the file, the save
re-reads the file's character records and merges them into the live accounts.

The model has five modules, one file each:

- `Wrappers` (`wrappers.dfy`): `Option`. It stands for a null reference or for a call that may throw.
- `Usernames` (`usernames.dfy`): one case-folding function `Fold` used for every case-insensitive comparison. Also `char.IsWhiteSpace`, `string.IsNullOrWhiteSpace` and the `Utility.GetText` default.
- `AccountFile` (`account_file.dfy`): the abstract accounts file, its entries, and the record extractor `LoadAccountRecords`. The extractor is a loop method proved against the recursive function `AccountRecords`.
- `Merge` (`merge.dfy`): the first-match lookup with an empty default used by the save.
- `Accounts` (`accounts.dfy`): the directory class `AccountDirectory`. Its `accounts` map is keyed by `KeyOf(ignoreCase, username)`, and `ignoreCase` says which comparer the dictionary was built with. The class has `Add`, `Remove`, `GetAccount`, `GetAccounts`, `Count`, `Load` and `Save`. `Load`'s loop is proved against the function `LoadedMap`; `Save`'s loop (`WriteAccounts`) against the merge functions.

The file is `Missing`, `Malformed` or `Document(entries)`:

- `Missing` is `File.Exists` failing.
- `Malformed` is a file that makes `GetAccountNode` throw: `XmlDocument.Load` fails (line 113), or there is no `accounts` root, so `doc["accounts"]` is null and `root.GetElementsByTagName` throws (lines 115-117).
- `Document(entries)` holds the `account` elements in document order.

Each `Entry` carries the outcomes of the foreign code applied to it:

- `construct` is the account built by `new Account(element)`, or `None` if the constructor throws.
- `username` is the `username` child's text, or `None` if there is no such child.
- `characters` is the result of `Account.LoadCharacterRecords`, or `None` if it throws.

A save takes two environment inputs:

- `opens` says whether the directory could be created and the file opened for writing.
- `fails` says, for each account, whether writing it throws. This includes the `(Account)` cast.

It returns its effect on the file:

- `Untouched`: it failed before the file was opened.
- `Written(count, entries, complete)`: the `count` attribute and the entries written. `complete` is false when a write threw part-way, leaving a truncated file.

Points of the code the model keeps as written:

- `Load` assigns the fresh dictionary (line 53) before it reads the file. So a file that cannot be read leaves the directory empty, and the exception escapes `Load`. `Load` returns `LoadThrew` in that case.
- `count` is written from `m_Accounts.Count` before any entry (line 144). So it equals the number of entries only when the save completes, and that is what `Save` states.
- The dictionary built at line 53 compares with `OrdinalIgnoreCase`. The merge at line 148 compares with `InvariantCultureIgnoreCase`. The model uses one `Fold` for both and does not resolve the difference.

Assumption: the account constructor at line 63 adds the new account to the directory itself, through `Add`. No such call is visible in this file. `Load` therefore calls `Add` for every entry whose construction succeeds.

Three functions define the per-entry outcomes and are stated about only through the lemmas in the table:

- `Usernames.IsBlank` defines `string.IsNullOrWhiteSpace` on a non-null string (line 89): every character is one that `char.IsWhiteSpace` accepts.
- `Usernames.GetText` defines the assumed `Utility.GetText` (line 86): the element's text, or the default when there is no element.
- `AccountFile.RecordOf` defines the per-entry step of lines 86-92. An entry whose character extraction threw, or whose username text is blank, contributes nothing. Any other entry contributes `(username text, characters)`. `RecordsMembership`, `SkippedEntryIsolated`, `KeptEntryInPlace` and `MissingUsernameKept` state this over the whole pass.

## Model

| member | source | states |
|---|---|---|
| `Usernames.Fold` | Scripts/Accounting/Accounts.cs:148 | the one case folding that stands for both ignore-case comparers (lines 53 and 148): it keeps the length and folds each character on its own |
| `Usernames.FoldEqualsIgnoreCase` | Scripts/Accounting/Accounts.cs:53 | a username and its folded form are equal ignoring case |
| `Usernames.MissingUsernameIsNotBlank` | Scripts/Accounting/Accounts.cs:86-89 | the placeholder `"empty"` that a missing `username` element falls back to is not blank |
| `AccountFile.MissingUsernameKept` | Scripts/Accounting/Accounts.cs:86-91 | an entry with no `username` element whose characters could be read is kept, under the placeholder username `"empty"` |
| `AccountFile.AccountRecords` | Scripts/Accounting/Accounts.cs:82-99 | the extracted records are never more than the entries, and no record has a null-or-whitespace username |
| `AccountFile.LoadAccountRecords` | Scripts/Accounting/Accounts.cs:74-110 | a missing file gives an empty list; an unreadable document throws; otherwise the result is the ordered filter `AccountRecords` of the entries |
| `AccountFile.RecordsOfConcat` | Scripts/Accounting/Accounts.cs:82-99 | the records of two runs of entries are the records of the first run followed by those of the second, so file order is kept |
| `AccountFile.SkippedEntryIsolated` | Scripts/Accounting/Accounts.cs:84-98 | an entry that threw or has a blank username removes nothing from the records of its siblings |
| `AccountFile.KeptEntryInPlace` | Scripts/Accounting/Accounts.cs:89-92 | a kept entry contributes exactly its `(username, characters)` record, between the records of the entries before and after it |
| `AccountFile.RecordsMembership` | Scripts/Accounting/Accounts.cs:82-99 | a record is returned if and only if some entry of the file produces it |
| `AccountFile.RecordsCount` | Scripts/Accounting/Accounts.cs:82-99 | the number of records is exactly the number of kept entries |
| `Merge.FirstMatch` | Scripts/Accounting/Accounts.cs:148 | the index found is the first record whose username equals the account's ignoring case; none is found only when no record matches |
| `Merge.CharactersFor` | Scripts/Accounting/Accounts.cs:148-149 | when some record matches, the characters are those of a matching record; when none matches, they are the empty list |
| `Merge.FirstMatchPreserved` | Scripts/Accounting/Accounts.cs:148-149 | an account is merged with the characters of the first record that matches it |
| `Merge.UnmatchedGetsNoCharacters` | Scripts/Accounting/Accounts.cs:148-149 | an account with no matching record is merged with an empty list, not an error |
| `Merge.CharactersForIgnoresCase` | Scripts/Accounting/Accounts.cs:148 | usernames equal ignoring case are merged with the same characters |
| `Merge.FirstMatchWins` | Scripts/Accounting/Accounts.cs:148 | once a matching record exists, later records (duplicates included) never change the merge |
| `Merge.NoMatchPrefix` | Scripts/Accounting/Accounts.cs:148 | records in front that do not match do not change which record's characters are taken |
| `Merge.SkippedEntryInvisibleToMerge` | Scripts/Accounting/Accounts.cs:124-149 | an entry of the old file that was skipped changes the characters of no account at save |
| `Merge.FirstKeptEntryPreserved` | Scripts/Accounting/Accounts.cs:86-149 | an account is saved with exactly the characters of the first kept entry of the old file whose username matches it |
| `Accounts.KeyedValuesCount` | Scripts/Accounting/Accounts.cs:25-29 | no account is stored under two keys, so the directory holds as many accounts as keys |
| `Accounts.LoadedMap` | Scripts/Accounting/Accounts.cs:53-70 | a load pass yields a map in which every account is filed under its folded username |
| `Accounts.FailedConstructionIsolated` | Scripts/Accounting/Accounts.cs:61-69 | an entry whose account construction throws changes nothing about the accounts loaded from the other entries |
| `Accounts.LastConstructedWins` | Scripts/Accounting/Accounts.cs:43-63 | after a load, a username holds the last constructed account with that username, ignoring case; earlier ones were overwritten |
| `Accounts.NeverConstructedAbsent` | Scripts/Accounting/Accounts.cs:59-70 | a load adds no key that no constructed account has |
| `Accounts.DistinctAccountsAllLoaded` | Scripts/Accounting/Accounts.cs:59-70 | when constructed usernames differ ignoring case, the load holds exactly as many accounts as entries that could be constructed |
| `Accounts.WriteAccounts` | Scripts/Accounting/Accounts.cs:146-152 | each live account is written at most once, with its merged characters; it fails if and only if some live account's write throws; when it does not fail, every live account is written |
| `Accounts.FoldedLookup` | Scripts/Accounting/Accounts.cs:53 | in a case-insensitive directory, looking up the folded username finds the same account as looking up the username itself |
| `Accounts.CaseInsensitiveLookups` | Scripts/Accounting/Accounts.cs:53 | in a case-insensitive directory, usernames equal ignoring case find the same account |
| `Accounts.AccountDirectory.constructor` | Scripts/Accounting/Accounts.cs:11 | the directory starts empty, with the case-sensitive default comparer |
| `Accounts.AccountDirectory.GetAccounts` | Scripts/Accounting/Accounts.cs:27-30 | every account filed in the directory is returned, and every account returned is the one filed under its own username's key |
| `Accounts.AccountDirectory.Count` | Scripts/Accounting/Accounts.cs:25 | `Count` is the number of live accounts `GetAccounts` returns |
| `Accounts.AccountDirectory.GetAccount` | Scripts/Accounting/Accounts.cs:32-39 | an account is found if and only if some live account's username equals the query under the current comparer; the account found is such an account |
| `Accounts.AccountDirectory.Add` | Scripts/Accounting/Accounts.cs:41-44 | the account is then found under its username; `Count` grows by one exactly when no equal key was present, otherwise the old account is silently replaced; every other key is unchanged |
| `Accounts.AccountDirectory.Remove` | Scripts/Accounting/Accounts.cs:46-49 | the username is then not found; removing an absent key leaves the map unchanged; `Count` drops by one exactly when the key was present; every other key is unchanged |
| `Accounts.AccountDirectory.Load` | Scripts/Accounting/Accounts.cs:51-72 | the old accounts are discarded and the map becomes case-insensitive; a missing or unreadable file leaves it empty, and only an unreadable file throws; otherwise it holds `LoadedMap` of the entries; lookups that differ only in letter case find the same account |
| `Accounts.AccountDirectory.Save` | Scripts/Accounting/Accounts.cs:120-164 | never throws; leaves the file untouched when the old file is unreadable or cannot be opened; otherwise writes `count` equal to `Count`, and each entry is a live account, written once, with the characters of its first matching old record; the write completes if and only if no account's write throws, and then every live account is written exactly once |

The functions `GetAccount` and `Count` read the directory and cannot change it, because Dafny functions have no side effects. `Save` has no `modifies` clause, so it does not change the directory either.

## Left out

- XML parsing and writing (`XmlDocument`, `GetElementsByTagName`, `XmlTextWriter` formatting, document start and end). The abstract `AccountsFile` and `SaveEffect` stand for them. They belong to an external library.
- File system access (`File.Exists`, `Directory.CreateDirectory`, `StreamWriter`, the configured path). These are represented only by `Missing`, `Malformed` and the `opens` input. They are I/O.
- Console output and exception logging. They have no behaviour worth stating.
- The event wiring in `Configure` and the empty static constructor. They are lifecycle plumbing.
- The internals of `Account` construction, `Account.Save`, `Account.LoadCharacterRecords`, `Utility.GetText` and `CharacterRecord`. These are foreign code. Their outcomes are the inputs `Entry` and `fails`. `GetText` is assumed to return the element text, or the default when the element is absent.
- The `(Account)` cast at line 146. A non-`Account` implementation of `IAccount` counts as a write that throws (`fails`).
- Null usernames (`ArgumentNullException` from the dictionary), and a `null` character list from `LoadCharacterRecords`. Strings and sequences in the model are never null.
- Usernames.Fold: folds ASCII letters only. Neither the ordinal nor the invariant-culture ignore-case rules for other characters are modelled, and the two comparers are not told apart.
- Accounts.AccountDirectory.Save: when a write throws part-way, the file is modelled as holding the `count` attribute and the complete entries written before the failing account. The partial XML of the failing entry and the unclosed root element are not modelled.
- Accounts.AccountDirectory.GetAccounts: returns the set of live accounts, with no iteration order. The dictionary's enumeration order is not modelled. The save picks an arbitrary order.
- Reading back what a save wrote. The account serializer and the character-record extractor are foreign code, so there is no save-then-load round trip to state.
- Concurrency between load and save. There is none in the source: both run on the one lifecycle thread.
