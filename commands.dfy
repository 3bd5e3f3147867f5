/** The `add` and `remove` subcommands end to end: open the vault, change its
    rows, save it again. Prompting, argument parsing and printing are not part
    of this module; the master password and the arguments are parameters. */
module Commands {
  import opened Wrappers
  import opened Decimal
  import opened Rows
  import opened VaultNames
  import opened VaultStore
  import opened Entries
  import Password

  /** What a subcommand leaves in the vault's file. */
  datatype FileEffect = Unchanged | Rewritten(file: seq<TokenRow>)

  /** What `add` does once the password length is known: an open failure or a
      failed generation leaves the file alone; otherwise the file is rewritten
      with the opened rows plus the new entry, whose password is well composed.
      Generation fails exactly when the length needs more than ten digits. */
  ghost predicate AddEffect(present: set<string>, name: string, stored: seq<TokenRow>, key: string,
                            title: string, username: string, length: int,
                            encrypt: (string, string) -> string, decrypt: (string, string) -> Option<string>,
                            effect: FileEffect, password: Option<string>)
  {
    var loaded := Opened(present, name, stored, key, decrypt);
    && (loaded.Failure? ==> effect == Unchanged && password.None?)
    && (loaded.Success? ==> (effect.Rewritten? <==> password.Some?))
    && (loaded.Success? ==> (password.None? <==> Password.EffectiveLength(length) / 4 > |Password.Digits|))
    && (password.Some? ==>
          && loaded.Success?
          && Password.Composed(password.value, Password.EffectiveLength(length))
          && effect.Rewritten?
          && effect.file == SavedFile(loaded.value + [EntryRow(NatToString(|loaded.value|), title, username, password.value)], key, encrypt))
  }

  /** `add -d name -t title -u username [-l length]`, with an omitted length
      read as the documented default. */
  method AddCommand(present: set<string>, name: string, stored: seq<TokenRow>, key: string,
                    title: string, username: string, lengthOption: Option<int>,
                    encrypt: (string, string) -> string, decrypt: (string, string) -> Option<string>)
    returns (effect: FileEffect, password: Option<string>)
    ensures AddEffect(present, name, stored, key, title, username, Password.LengthArgument(lengthOption),
                      encrypt, decrypt, effect, password)
    ensures var loaded := Opened(present, name, stored, key, decrypt);
            RoundTrip(encrypt, decrypt, key) && loaded.Success? && AllText(loaded.value)
            && Indexed(loaded.value) && password.Some? ==>
              var added := loaded.value + [EntryRow(NatToString(|loaded.value|), title, username, password.value)];
              && Opened(present, name, effect.file, key, decrypt) == Success(added)
              && Indexed(added)
  {
    var loaded := OpenDatabase(present, name, stored, key, decrypt);
    if loaded.Failure? {
      return Unchanged, None;
    }
    var rows := new RowList(loaded.value);
    password := rows.Add(title, username, lengthOption);
    if password.None? {
      return Unchanged, None;
    }
    var file, _ := SaveDatabase(rows.rows, key, encrypt);
    effect := Rewritten(file);
    if RoundTrip(encrypt, decrypt, key) && AllText(loaded.value) && Indexed(loaded.value) {
      AdditionReopens(present, name, stored, loaded.value, EntryRow(NatToString(|loaded.value|), title, username, password.value),
                      key, encrypt, decrypt);
    }
  }

  /** `add` as written: the `-l` value goes to `create_random_password`
      unchanged, so an omitted length raises a TypeError after the vault was
      opened and before it is saved; the file keeps its old content. With a
      length given it does what `AddCommand` does. */
  method AddCommandAsWritten(present: set<string>, name: string, stored: seq<TokenRow>, key: string,
                             title: string, username: string, lengthOption: Option<int>,
                             encrypt: (string, string) -> string, decrypt: (string, string) -> Option<string>)
    returns (effect: FileEffect, password: Option<string>)
    ensures lengthOption.None? ==> effect == Unchanged && password.None?
    ensures lengthOption.Some? ==>
              AddEffect(present, name, stored, key, title, username, lengthOption.value,
                        encrypt, decrypt, effect, password)
  {
    var loaded := OpenDatabase(present, name, stored, key, decrypt);
    if loaded.Failure? {
      return Unchanged, None;
    }
    var generated := Password.CreateRandomPasswordAsWritten(lengthOption);
    if generated.Failure? {
      return Unchanged, None;
    }
    var rows := new RowList(loaded.value);
    rows.AppendEntry(title, username, generated.value);
    password := Some(generated.value);
    var file, _ := SaveDatabase(rows.rows, key, encrypt);
    effect := Rewritten(file);
  }

  /** Appending a text entry with the next index to an opened, indexed vault and
      saving it leaves a file that reopens to the longer rows. */
  lemma AdditionReopens(present: set<string>, name: string, stored: seq<TokenRow>, rows: seq<Row>, entry: Row,
                        key: string, encrypt: (string, string) -> string, decrypt: (string, string) -> Option<string>)
    requires Opened(present, name, stored, key, decrypt) == Success(rows)
    requires RoundTrip(encrypt, decrypt, key) && AllText(rows) && Indexed(rows)
    requires IsText(entry) && |entry| > 0 && entry[0] == IndexCell(|rows|)
    ensures Opened(present, name, SavedFile(rows + [entry], key, encrypt), key, decrypt) == Success(rows + [entry])
    ensures Indexed(rows + [entry])
  {
    AppendKeepsIndexed(rows, entry);
    assert forall i :: 0 <= i < |rows| ==> (rows + [entry])[i] == rows[i];
    assert present + {DbFile(name)} == present;
    SaveThenOpen(present, name, rows + [entry], key, encrypt, decrypt);
  }

  /** `remove -d name -i index`. */
  method RemoveCommand(present: set<string>, name: string, stored: seq<TokenRow>, key: string, index: int,
                       encrypt: (string, string) -> string, decrypt: (string, string) -> Option<string>)
    returns (effect: FileEffect)
    ensures var loaded := Opened(present, name, stored, key, decrypt);
            && (loaded.Failure? ==> effect == Unchanged)
            && (loaded.Success? && !(1 <= index < |loaded.value|) ==> effect == Unchanged)
            && (loaded.Success? && 1 <= index < |loaded.value| ==>
                  var popped := RemoveAt(loaded.value, index);
                  && (EntriesHaveIndexField(popped) <==> effect.Rewritten?)
                  && (effect.Rewritten? ==> effect.file == SavedFile(Reindexed(popped), key, encrypt)))
    ensures var loaded := Opened(present, name, stored, key, decrypt);
            loaded.Success? && Indexed(loaded.value) && 1 <= index < |loaded.value| ==>
              EntriesHaveIndexField(RemoveAt(loaded.value, index))
    ensures var loaded := Opened(present, name, stored, key, decrypt);
            RoundTrip(encrypt, decrypt, key) && loaded.Success? && AllText(loaded.value)
            && 1 <= index < |loaded.value| && EntriesHaveIndexField(RemoveAt(loaded.value, index)) ==>
              var remaining := Reindexed(RemoveAt(loaded.value, index));
              && effect.Rewritten?
              && Opened(present, name, effect.file, key, decrypt) == Success(remaining)
              && |remaining| == |loaded.value| - 1
              && Indexed(remaining)
  {
    var loaded := OpenDatabase(present, name, stored, key, decrypt);
    if loaded.Failure? {
      return Unchanged;
    }
    if Indexed(loaded.value) && 1 <= index < |loaded.value| {
      RemoveKeepsOrder(loaded.value, index);
    }
    var rows := new RowList(loaded.value);
    var outcome := rows.Remove(index);
    if outcome != Removed {
      return Unchanged;
    }
    var file, _ := SaveDatabase(rows.rows, key, encrypt);
    effect := Rewritten(file);
    if RoundTrip(encrypt, decrypt, key) && AllText(loaded.value) {
      RemovalReopens(present, name, stored, loaded.value, index, key, encrypt, decrypt);
    }
  }

  /** Removing an entry from an opened vault whose every cell decrypted, when
      each remaining entry has a field 0, re-indexing and saving it leaves a file
      that reopens to the re-indexed rows, which satisfy the invariant whatever
      the indices were before. */
  lemma RemovalReopens(present: set<string>, name: string, stored: seq<TokenRow>, rows: seq<Row>, index: int,
                       key: string, encrypt: (string, string) -> string, decrypt: (string, string) -> Option<string>)
    requires Opened(present, name, stored, key, decrypt) == Success(rows)
    requires RoundTrip(encrypt, decrypt, key) && AllText(rows)
    requires 1 <= index < |rows| && EntriesHaveIndexField(RemoveAt(rows, index))
    ensures var remaining := Reindexed(RemoveAt(rows, index));
            && Opened(present, name, SavedFile(remaining, key, encrypt), key, decrypt) == Success(remaining)
            && |remaining| == |rows| - 1
            && Indexed(remaining)
  {
    var popped := RemoveAt(rows, index);
    assert popped[0] == rows[0];
    assert AllText(popped) by {
      assert forall k :: 0 <= k < |popped| ==> popped[k] == if k < index then rows[k] else rows[k + 1];
    }
    ReindexedIsIndexed(popped);
    ReindexedKeepsText(popped);
    assert present + {DbFile(name)} == present;
    SaveThenOpen(present, name, Reindexed(popped), key, encrypt, decrypt);
  }

  /** Re-indexing writes text into field 0 and leaves the other cells alone. */
  lemma ReindexedKeepsText(rows: seq<Row>)
    requires EntriesHaveIndexField(rows)
    requires AllText(rows)
    ensures AllText(Reindexed(rows))
  {
    var r := Reindexed(rows);
    forall i | 0 <= i < |r| ensures IsText(r[i]) {
      if i > 0 {
        assert forall j :: 1 <= j < |r[i]| ==> r[i][j] == rows[i][j];
      }
    }
  }
}
