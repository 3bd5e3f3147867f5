/** The vault store: creating, opening, saving and deleting the encrypted file
    of a vault. Every cell is encrypted on its own with the master password.
    The cipher is a pair of function parameters: `encrypt(text, key)` yields a
    token, `decrypt(token, key)` yields the text or `None` (the library's
    `False`). Which files exist is a set of file names; what a file holds is
    the list of token rows its csv lines read as. */
module VaultStore {
  import opened Wrappers
  import opened Rows
  import opened VaultNames

  /** The exceptions the store operations raise. */
  datatype Error =
    | FileExists        // FileExistsError from create
    | FileNotFound      // FileNotFoundError from open and delete
    | WrongPassword     // ValueError("Master password incorrect") from open
    | MissingHeaderCell // IndexError: the file has no first row, or an empty one

  type TokenRow = seq<string>

  const IndexField: string := "index"
  const HeaderFields: seq<string> := [IndexField, "title", "username", "password"]

  /** The header row as `open` returns it. */
  function HeaderRow(): (row: Row)
    ensures |row| == 4 && row[0] == Some(IndexField)
  {
    seq(4, j requires 0 <= j < 4 => Some(HeaderFields[j]))
  }

  /** The library contract assumed for a key: decryption undoes encryption. */
  ghost predicate RoundTrip(encrypt: (string, string) -> string, decrypt: (string, string) -> Option<string>, key: string) {
    forall text :: decrypt(encrypt(text, key), key) == Some(text)
  }

  /** `[cryptocode.encrypt(column, key) for column in row]`. */
  function EncryptRow(row: seq<string>, key: string, encrypt: (string, string) -> string): (tokens: TokenRow)
    ensures |tokens| == |row|
  {
    seq(|row|, j requires 0 <= j < |row| => encrypt(row[j], key))
  }

  /** `[cryptocode.decrypt(column, key) for column in row]`. */
  function DecryptRow(tokens: TokenRow, key: string, decrypt: (string, string) -> Option<string>): (row: Row)
    ensures |row| == |tokens|
  {
    seq(|tokens|, j requires 0 <= j < |tokens| => decrypt(tokens[j], key))
  }

  function DecryptTable(stored: seq<TokenRow>, key: string, decrypt: (string, string) -> Option<string>): (rows: seq<Row>)
    ensures |rows| == |stored|
    ensures forall i :: 0 <= i < |stored| ==> |rows[i]| == |stored[i]|
  {
    seq(|stored|, i requires 0 <= i < |stored| => DecryptRow(stored[i], key, decrypt))
  }

  /** A row every cell of which holds text. */
  predicate IsText(row: Row) {
    forall j :: 0 <= j < |row| ==> row[j].Some?
  }

  predicate AllText(rows: seq<Row>) {
    forall i :: 0 <= i < |rows| ==> IsText(rows[i])
  }

  function Texts(row: Row): (texts: seq<string>)
    requires IsText(row)
    ensures |texts| == |row| && forall j :: 0 <= j < |row| ==> row[j] == Some(texts[j])
  {
    seq(|row|, j requires 0 <= j < |row| => row[j].value)
  }

  /** `create_empty_database`: refuses an existing file, otherwise the new file
      holds the header row alone. */
  function CreateEmptyDatabase(present: set<string>, name: string, key: string,
                               encrypt: (string, string) -> string): (r: Result<seq<TokenRow>, Error>)
    ensures r.Failure? <==> DbFile(name) in present
    ensures r.Failure? ==> r.error == FileExists
    ensures r.Success? ==> |r.value| == 1 && |r.value[0]| == |HeaderFields|
  {
    if DbFile(name) in present then Failure(FileExists)
    else Success([EncryptRow(HeaderFields, key, encrypt)])
  }

  /** What `open_database` returns or raises. Only the first cell of the first
      row is compared with "index". */
  function Opened(present: set<string>, name: string, stored: seq<TokenRow>, key: string,
                  decrypt: (string, string) -> Option<string>): (r: Result<seq<Row>, Error>)
    ensures DbFile(name) !in present ==> r == Failure(FileNotFound)
    ensures DbFile(name) in present && (stored == [] || stored[0] == []) ==> r == Failure(MissingHeaderCell)
    ensures DbFile(name) in present && stored != [] && stored[0] != [] ==>
              (r.Success? <==> decrypt(stored[0][0], key) == Some(IndexField))
              && (r.Failure? ==> r.error == WrongPassword)
    ensures r.Success? ==>
              && |r.value| == |stored|
              && forall i :: 0 <= i < |stored| ==> r.value[i] == DecryptRow(stored[i], key, decrypt)
  {
    if DbFile(name) !in present then Failure(FileNotFound)
    else
      var rows := DecryptTable(stored, key, decrypt);
      if |rows| == 0 || |rows[0]| == 0 then Failure(MissingHeaderCell)
      else if rows[0][0] != Some(IndexField) then Failure(WrongPassword)
      else Success(rows)
  }

  method OpenDatabase(present: set<string>, name: string, stored: seq<TokenRow>, key: string,
                      decrypt: (string, string) -> Option<string>) returns (r: Result<seq<Row>, Error>)
    ensures r == Opened(present, name, stored, key, decrypt)
  {
    if DbFile(name) !in present {
      return Failure(FileNotFound);
    }
    var decrypted: seq<Row> := [];
    for i := 0 to |stored|
      invariant |decrypted| == i
      invariant forall k :: 0 <= k < i ==> decrypted[k] == DecryptRow(stored[k], key, decrypt)
    {
      var rowDecrypted := DecryptRow(stored[i], key, decrypt);
      decrypted := decrypted + [rowDecrypted];
    }
    assert decrypted == DecryptTable(stored, key, decrypt);
    if |decrypted| == 0 || |decrypted[0]| == 0 {
      return Failure(MissingHeaderCell);
    }
    if decrypted[0][0] != Some(IndexField) {
      return Failure(WrongPassword);
    }
    return Success(decrypted);
  }

  /** How many rows a save writes: all of them, or those before the first row
      holding a cell that is not text. */
  function WrittenCount(rows: seq<Row>): (n: nat)
    ensures n <= |rows|
    ensures forall i :: 0 <= i < n ==> IsText(rows[i])
    ensures n < |rows| ==> !IsText(rows[n])
  {
    if rows == [] || !IsText(rows[0]) then 0 else 1 + WrittenCount(rows[1..])
  }

  /** The file a save leaves: the file is truncated first, then one encrypted
      line per row is written until a row cannot be encrypted. */
  function SavedFile(rows: seq<Row>, key: string, encrypt: (string, string) -> string): (file: seq<TokenRow>)
    ensures |file| == WrittenCount(rows)
    ensures forall i :: 0 <= i < |file| ==> |file[i]| == |rows[i]|
  {
    seq(WrittenCount(rows), i requires 0 <= i < WrittenCount(rows) => EncryptRow(Texts(rows[i]), key, encrypt))
  }

  /** `save_database`. */
  method SaveDatabase(rows: seq<Row>, key: string, encrypt: (string, string) -> string)
    returns (file: seq<TokenRow>, ok: bool)
    ensures ok <==> AllText(rows)
    ensures file == SavedFile(rows, key, encrypt)
  {
    file := [];
    var i := 0;
    while i < |rows|
      invariant 0 <= i <= |rows|
      invariant forall k :: 0 <= k < i ==> IsText(rows[k])
      invariant |file| == i
      invariant forall k :: 0 <= k < i ==> file[k] == EncryptRow(Texts(rows[k]), key, encrypt)
    {
      if !IsText(rows[i]) {
        return file, false;
      }
      file := file + [EncryptRow(Texts(rows[i]), key, encrypt)];
      i := i + 1;
    }
    return file, true;
  }

  /** `delete_database`: refuses a missing file, otherwise removes it. */
  function DeleteDatabase(present: set<string>, name: string): (r: Result<set<string>, Error>)
    ensures r.Failure? <==> DbFile(name) !in present
    ensures r.Failure? ==> r.error == FileNotFound
    ensures r.Success? ==> r.value == present - {DbFile(name)}
  {
    if DbFile(name) !in present then Failure(FileNotFound) else Success(present - {DbFile(name)})
  }

  /** Decrypting an encrypted row gives the row back, cell for cell. */
  lemma DecryptEncryptRow(row: seq<string>, key: string,
                          encrypt: (string, string) -> string, decrypt: (string, string) -> Option<string>)
    requires RoundTrip(encrypt, decrypt, key)
    ensures var back := DecryptRow(EncryptRow(row, key, encrypt), key, decrypt);
            |back| == |row| && forall j :: 0 <= j < |row| ==> back[j] == Some(row[j])
  {
  }

  /** A freshly created vault opens, with the same password, to exactly the
      header row. A second create of the same name is refused. */
  lemma CreateThenOpen(present: set<string>, name: string, key: string,
                       encrypt: (string, string) -> string, decrypt: (string, string) -> Option<string>)
    requires RoundTrip(encrypt, decrypt, key)
    requires DbFile(name) !in present
    ensures var created := CreateEmptyDatabase(present, name, key, encrypt);
            && created.Success?
            && Opened(present + {DbFile(name)}, name, created.value, key, decrypt) == Success([HeaderRow()])
            && CreateEmptyDatabase(present + {DbFile(name)}, name, key, encrypt) == Failure(FileExists)
  {
    var created := CreateEmptyDatabase(present, name, key, encrypt).value;
    DecryptEncryptRow(HeaderFields, key, encrypt, decrypt);
    assert DecryptRow(created[0], key, decrypt) == HeaderRow();
    assert DecryptTable(created, key, decrypt) == [HeaderRow()];
  }

  /** A vault created under one password and opened under another is refused,
      unless the other password happens to decrypt the first token to "index". */
  lemma WrongPasswordRejected(present: set<string>, name: string, key: string, otherKey: string,
                              encrypt: (string, string) -> string, decrypt: (string, string) -> Option<string>)
    requires DbFile(name) !in present
    requires decrypt(encrypt(IndexField, key), otherKey) != Some(IndexField)
    ensures var created := CreateEmptyDatabase(present, name, key, encrypt);
            Opened(present + {DbFile(name)}, name, created.value, otherKey, decrypt) == Failure(WrongPassword)
  {
    var created := CreateEmptyDatabase(present, name, key, encrypt).value;
    assert created[0][0] == encrypt(IndexField, key);
  }

  /** A complete save followed by an open with the same password gives back
      the rows, provided the first cell is still "index". */
  lemma SaveThenOpen(present: set<string>, name: string, rows: seq<Row>, key: string,
                     encrypt: (string, string) -> string, decrypt: (string, string) -> Option<string>)
    requires RoundTrip(encrypt, decrypt, key)
    requires AllText(rows)
    requires rows != [] && rows[0] != [] && rows[0][0] == Some(IndexField)
    ensures Opened(present + {DbFile(name)}, name, SavedFile(rows, key, encrypt), key, decrypt) == Success(rows)
  {
    var file := SavedFile(rows, key, encrypt);
    assert |file| == |rows|;
    forall i | 0 <= i < |rows| ensures DecryptRow(file[i], key, decrypt) == rows[i] {
      DecryptEncryptRow(Texts(rows[i]), key, encrypt, decrypt);
    }
    assert DecryptTable(file, key, decrypt) == rows;
  }

  /** A save that meets a cell which did not decrypt has already truncated the
      file: reopening it gives only the rows before that row. */
  lemma FailedSaveLosesRows(present: set<string>, name: string, rows: seq<Row>, key: string,
                            encrypt: (string, string) -> string, decrypt: (string, string) -> Option<string>)
    requires RoundTrip(encrypt, decrypt, key)
    requires !AllText(rows)
    requires rows != [] && IsText(rows[0]) && rows[0] != [] && rows[0][0] == Some(IndexField)
    ensures var file := SavedFile(rows, key, encrypt);
            && 1 <= |file| < |rows|
            && Opened(present + {DbFile(name)}, name, file, key, decrypt) == Success(rows[..|file|])
  {
    var file := SavedFile(rows, key, encrypt);
    var written := rows[..|file|];
    assert AllText(written);
    SaveThenOpen(present, name, written, key, encrypt, decrypt);
    assert WrittenCount(written) == |file| by {
      WrittenCountPrefix(rows, |file|);
    }
    assert SavedFile(written, key, encrypt) == file;
  }

  lemma {:induction false} WrittenCountPrefix(rows: seq<Row>, n: nat)
    requires n <= |rows| && AllText(rows[..n])
    ensures WrittenCount(rows[..n]) == n
  {
    if n > 0 {
      assert rows[..n][1..] == rows[1..][..n - 1];
      WrittenCountPrefix(rows[1..], n - 1);
    }
  }

  /** A deleted vault can no longer be opened, and deleting it again fails. */
  lemma DeleteThenOpen(present: set<string>, name: string, stored: seq<TokenRow>, key: string,
                       decrypt: (string, string) -> Option<string>)
    requires DbFile(name) in present
    ensures var remaining := DeleteDatabase(present, name).value;
            && Opened(remaining, name, stored, key, decrypt) == Failure(FileNotFound)
            && DeleteDatabase(remaining, name) == Failure(FileNotFound)
  {
  }
}
