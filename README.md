# Magic Password Manager: a Dafny model of its vault core

Magic Password Manager (`mpm.py`) keeps credential entries in a vault file,
`<name>.mpmdb`. The file is a csv table whose every cell is encrypted on its own
with a master password. The first row is the header
`index, title, username, password`. Every later row is an entry whose `index`
field is its 1-based position.

This project models the core of `mpm.py` and proves properties of that model:

- **Entry add/remove protocol** (`Rows`, `Entries`, `Commands`). `add` appends
  `[str(len(rows)), title, username, password]`. `remove` checks the 1-based
  index, pops the row, then rewrites field 0 of every row after the header.
  `Entries.RowList` is a class whose `rows` field these methods update in place.
  `Rows` holds the pure definitions they are proved against: the invariant
  `Indexed`, the re-index map, and `RemoveAt`.
- **Password composition** (`Password`). The requested length is raised to at
  least 5. It is split into `n//4 + n%4` lower-case letters and `n//4` each of
  upper-case letters, digits and punctuation. Each class is sampled without
  replacement and the result is shuffled. `random.sample` and `random.shuffle`
  are arbitrary choices (`:|`), so every property holds for every outcome.
- **Vault names** (`VaultNames`). A vault's file is `name + ".mpmdb"`, and
  `list-db` strips file names back to vault names.
- **Vault store** (`VaultStore`). This covers create, open (with the
  master-password gate), save and delete. The cipher is two function
  parameters: `encrypt` and `decrypt`. `decrypt` returns `None` where the
  library returns `False`.
- **Decimal indices** (`Decimal`). This is `str(k)` for the entry indices, with
  its inverse.

`Wrappers` holds `Option` and `Result`.

In these points the model follows `mpm.py` as written:

- `open_database` compares only the first header cell with `"index"`. It does
  not compare the whole header row (mpm.py:196).
- `save_database` truncates the live file and rewrites it (mpm.py:212). It does
  not write a temporary file and rename it.
- `open_database` raises no dedicated error for an empty file. Indexing the
  missing first row raises an IndexError instead (mpm.py:196).

## Model

| member | source | states |
|---|---|---|
| `Decimal.NatToString` | mpm.py:126 | `str(k)` is a non-empty run of decimal digits with no leading zero (except "0"); one digit exactly for k < 10 |
| `Decimal.ParseNatToString` | mpm.py:126 | reading `str(k)` back as a number gives k |
| `Decimal.NatToStringInjective` | mpm.py:124-126 | two positions get the same index string iff they are equal |
| `Rows.EntryRow` | mpm.py:101 | an appended entry row has four fields, with the index in field 0 |
| `Rows.WithIndex` | mpm.py:126 | `row[0] = str(k)` keeps the row's length and every field after field 0 |
| `Rows.ReindexedBelow` | mpm.py:124-126 | the partly run re-index loop keeps the number of rows |
| `Rows.RemoveAt` | mpm.py:121 | `rows.pop(i)` leaves one row fewer |
| `Rows.ReindexedIsIndexed` | mpm.py:123-126 | after the re-index loop, entry k has index `str(k)`; length, header row and every field after field 0 are unchanged |
| `Rows.ReindexedFixesIndexed` | mpm.py:124-126 | on rows that already satisfy the invariant the re-index loop changes nothing (e.g. after removing the last entry) |
| `Rows.RemoveKeepsOrder` | mpm.py:118-126 | removing entry i from indexed rows: one row fewer, header and earlier entries untouched, later entries move up one place in order with fields 1.. unchanged, invariant restored |
| `Rows.AppendKeepsIndexed` | mpm.py:99-101 | appending an entry whose field 0 is `str(len(rows))` keeps the invariant |
| `Rows.IndexFieldReadsAsPosition` | mpm.py:124-126 | under the invariant every entry's index field reads back as its position |
| `Rows.RemoveFirstOfTwo` | mpm.py:121-126 | removing the first of two entries makes the former second entry entry 1 with index "1" |
| `Password.AlphabetLiterals` | mpm.py:258-261 | the four alphabets equal `string.ascii_lowercase`, `string.ascii_uppercase`, `string.digits` and `string.punctuation` character for character |
| `Password.CharRange` | mpm.py:258-261 | each class alphabet is a run of consecutive ASCII characters (`string.ascii_lowercase`, ...) |
| `Password.EffectiveLength` | mpm.py:247-250 | the length used is at least 5 and equals the request when the request is at least 5 |
| `Password.Sample` | mpm.py:258-261 | `random.sample(population, k)` fails iff k exceeds the population; otherwise k characters of the population, no repeats when the population has none |
| `Password.Shuffle` | mpm.py:262 | `random.shuffle` only permutes the characters (same multiset) |
| `Password.CreateRandomPassword` | mpm.py:247-264 | fails iff `n//4` exceeds the 10 digits; otherwise the password has length n = max(request, 5), exactly `n//4 + n%4` lower-case letters, `n//4` upper-case letters, digits and punctuation characters, and no repeated character |
| `Password.ShuffledGroups` | mpm.py:257-262 | the shuffled concatenation of the four samples has their total length, each class count and no repeat |
| `Password.GroupedCounts` | mpm.py:257-261 | samples from the four disjoint classes laid end to end hold each class's sample size of that class |
| `Password.GroupsDistinct` | mpm.py:257-261 | repeat-free samples from the four disjoint classes laid end to end share no character |
| `Password.CountInPermutation` | mpm.py:262 | class counts do not change under a shuffle |
| `Password.DistinctPermutation` | mpm.py:262 | a shuffle of a repeat-free password is repeat-free |
| `Password.FailsFromLength44` | mpm.py:253-260 | generation fails exactly for requested lengths of 44 and more |
| `Password.ClassSplit` | mpm.py:247-261 | the class counts add up to n, every class gets at least one character, 1 gives length 5, the default gives 10, and 9 splits 3/2/2/2 |
| `Password.CreateRandomPasswordAsWritten` | mpm.py:247-264 | as written, called with the raw `-l` value: `None` raises TypeError at the first comparison; a given length fails with ValueError iff `n//4` exceeds the 10 digits, and otherwise yields a well-composed password of length max(request, 5) |
| `Password.LengthArgument` | mpm.py:241 | corrected: an omitted length means the documented default 10 |
| `Password.OmittedLength` | mpm.py:241-250 | corrected, `add` without `-l` makes a password of length 10; every length used is at least 5 |
| `VaultNames.DbFile` | mpm.py:158 | the vault file is the name followed by ".mpmdb" |
| `VaultNames.BeforeFirstDot` | mpm.py:143 | `split(".")[0]` is the longest dot-free prefix, followed by a dot or the end of the name |
| `VaultNames.GetDatabaseNames` | mpm.py:142-144 | one name per matched file, in the same order, each the file name's part before its first dot |
| `VaultNames.ListedNameOfPlainName` | mpm.py:143 | a dot-free vault name is listed as itself |
| `VaultNames.ListedNameOfDottedName` | mpm.py:143 | a vault name with a dot is listed under a different name ("my.vault" as "my") |
| `VaultNames.WithoutExtension` | mpm.py:139 | corrected: the file name up to its last dot (no dot after it), or all of it when it has no dot |
| `VaultNames.ListVaultNames` | mpm.py:132-144 | corrected listing: one name per file, in order, each without its extension |
| `VaultNames.WithoutExtensionOfDbFile` | mpm.py:139 | corrected listing gives back every vault name, dotted or not |
| `VaultNames.ReadingsAgreeOnPlainNames` | mpm.py:143 | both readings agree on dot-free names |
| `VaultStore.HeaderRow` | mpm.py:162 | the decrypted header has four cells, the first "index" |
| `VaultStore.EncryptRow` | mpm.py:165 | encrypting a row cell by cell keeps its number of cells |
| `VaultStore.DecryptRow` | mpm.py:193 | decrypting a row cell by cell keeps its number of cells |
| `VaultStore.DecryptTable` | mpm.py:191-194 | the decrypted table has the stored table's shape |
| `VaultStore.CreateEmptyDatabase` | mpm.py:158-165 | fails with FileExists iff the file exists; otherwise the file holds one row of four tokens |
| `VaultStore.Opened` | mpm.py:183-199 | FileNotFound when the file is absent; IndexError on an empty file or empty first row; otherwise success iff the first cell decrypts to exactly "index", else WrongPassword; on success every row is decrypted cell by cell |
| `VaultStore.OpenDatabase` | mpm.py:183-199 | the decrypting loop returns exactly what `Opened` specifies |
| `VaultStore.WrittenCount` | mpm.py:214-215 | a save writes the rows before the first row holding a cell that is not text |
| `VaultStore.SavedFile` | mpm.py:211-215 | the saved file has one line per written row |
| `VaultStore.SaveDatabase` | mpm.py:211-215 | the save loop succeeds iff every cell is text and leaves exactly the file `SavedFile` specifies |
| `VaultStore.DeleteDatabase` | mpm.py:228-231 | fails with FileNotFound iff the file is absent; otherwise removes exactly that file |
| `VaultStore.DecryptEncryptRow` | mpm.py:193 | with a cipher whose decryption undoes encryption, decrypting an encrypted row gives the row back |
| `VaultStore.CreateThenOpen` | mpm.py:158-199 | a new vault opens with its password to exactly the header row; creating it again fails with FileExists |
| `VaultStore.WrongPasswordRejected` | mpm.py:196-197 | opening a new vault with a password that does not decrypt its first token to "index" fails with WrongPassword |
| `VaultStore.SaveThenOpen` | mpm.py:202-215 | a complete save reopens to the same rows |
| `VaultStore.FailedSaveLosesRows` | mpm.py:211-215 | a save that meets an undecrypted cell leaves a truncated file that reopens to the rows before it only |
| `VaultStore.DeleteThenOpen` | mpm.py:228-231 | a deleted vault fails to open and to delete with FileNotFound |
| `Entries.RowList.constructor` | mpm.py:110 | the row list starts as the opened rows |
| `Entries.RowList.Add` | mpm.py:99-101 | appends exactly one entry `[str(len(rows)), title, username, password]` with a well-composed password, or changes nothing when generation fails; keeps the invariant |
| `Entries.RowList.AppendEntry` | mpm.py:99-101 | appends exactly `[str(len(rows)), title, username, password]` and nothing else; keeps the invariant |
| `Entries.RowList.Remove` | mpm.py:118-126 | refuses iff the index is outside `1 <= i < len(rows)`, leaving the rows unchanged; otherwise the rows become the popped rows re-indexed, or, if an entry row has no field 0, re-indexed up to that row (IndexError) |
| `Commands.AddCommand` | mpm.py:87-104 | leaves the file unchanged when opening fails; after a successful open, generation fails exactly when the length needs more than 10 digits, and then the file is unchanged; otherwise it is rewritten with the rows plus the new entry with a well-composed password; when every cell of the opened vault decrypted and its entries are indexed, and the cipher round-trips, the new file reopens to those rows, which keep the invariant |
| `Commands.AddCommandAsWritten` | mpm.py:87-104 | as written: without `-l` the file is left unchanged (TypeError before the save); with a length given it has the same effect as `AddCommand` for that length |
| `Commands.RemoveCommand` | mpm.py:106-129 | leaves the file unchanged on an open failure, an invalid index or an IndexError; an indexed vault never meets the IndexError; otherwise rewrites it with the re-indexed rows; when every cell of the opened vault decrypted and the cipher round-trips, the file reopens to one row fewer, which satisfy the invariant whatever the indices were before |
| `Commands.AdditionReopens` | mpm.py:99-102 | appending the next all-text entry to an opened, indexed, all-text vault and saving it gives a file that reopens to the longer rows, which keep the invariant |
| `Commands.RemovalReopens` | mpm.py:121-128 | removing an entry from an opened all-text vault whose remaining entries all have a field 0, re-indexing and saving gives a file that reopens to the re-indexed rows: one row fewer, invariant kept |
| `Commands.ReindexedKeepsText` | mpm.py:124-126 | re-indexing keeps every cell text |

## Findings

| source | as written | input that shows it | evidently intended | confidence | as-written member | corrected member |
|---|---|---|---|---|---|---|
| mpm.py:143 | `db_file.split(".")[0]` keeps only the part before the first dot | vault created as `my.vault` (file `my.vault.mpmdb`) is listed as `my`, which does not open | the file name without its extension (docstring at mpm.py:139) | high, not executed | `VaultNames.ListedNameOfDottedName` | `VaultNames.WithoutExtensionOfDbFile` |
| mpm.py:100 | `create_random_password(args.password_length)`, and `-l` has no default (mpm.py:288), so it passes `None`; `None < 5` (mpm.py:249) raises TypeError | `add -d v -t t -u u` without `-l` | the documented default length 10 (mpm.py:241) | high, not executed | `Commands.AddCommandAsWritten` | `Password.LengthArgument` |

`Entries.RowList.Add` and `Commands.AddCommand` use the corrected `Password.LengthArgument`.
`Commands.AddCommandAsWritten` and `Password.CreateRandomPasswordAsWritten` model the call as written.
`VaultNames.GetDatabaseNames` models the listing as written. `VaultNames.ListVaultNames` is the corrected listing.

## Left out

- Entries.RowList.Add: reads an omitted `-l` as the documented default 10. As written, the program raises TypeError at that point and adds nothing (`Commands.AddCommandAsWritten`).
- Commands.AddCommand: rewrites the file with a 10-character password when `-l` is omitted. As written, the program leaves the file unchanged (`Commands.AddCommandAsWritten`).
- Argument parsing (`parse_program_args`), password prompting and the
  repeat-password loop, table printing and `sys.exit` messages are not part of
  this model. The master password and the arguments are parameters.
- The `delete-db` handler prints an unbound `err` (mpm.py:82-83). This is
  command-line plumbing and is not modelled.
- The csv reader and writer are not modelled. A file's content is the list of
  token rows its lines read as. Writing a row and reading it back is taken to
  give the same row.
- `glob.glob` pattern matching is not modelled. `GetDatabaseNames` takes the
  file names the search returned.
- File system effects are not modelled. Existence is a set of present file
  names, and operations return the new file content or the new set.
  Persistence across runs is not modelled.
- The cipher's internals (key derivation, AES, token format) are not modelled.
  `encrypt` and `decrypt` are parameters. The lemmas assume that decryption
  with the same key undoes encryption (`RoundTrip`).
- Each `encrypt` call in the library draws a fresh random salt. Here `encrypt`
  is a function, so equal plaintexts give equal tokens. No property here
  depends on that.
- Encrypting a cell that did not decrypt (`False`) fails inside the library.
  In the model `SaveDatabase` reports such a save with `ok == false`, and
  `WrittenCount` says how many rows were written before that row.
- The real randomness of `random.sample` and `random.shuffle` is not modelled.
  Both are arbitrary choices. `random.sample` also rejects a negative count,
  but the count here is never negative.
- Rows are values. Python's inner row lists are separate objects that the
  re-index loop changes in place. No other reference to them exists, so
  aliasing is not modelled.
