/** Vault file names: a vault `name` lives in the file `name + ".mpmdb"`, and
    `list-db` turns the file names the directory search returns back into
    vault names (`get_database_names`). */
module VaultNames {

  const Extension: string := ".mpmdb"

  /** The backing file of a vault. */
  function DbFile(name: string): (file: string)
    ensures |file| == |name| + |Extension|
    ensures file[..|name|] == name && file[|name|..] == Extension
  {
    name + Extension
  }

  /** `file.split(".")[0]`: the part of `file` before its first dot, or all of
      it when it has none. */
  function BeforeFirstDot(file: string): (stem: string)
    ensures |stem| <= |file| && stem == file[..|stem|]
    ensures '.' !in stem
    ensures |stem| < |file| ==> file[|stem|] == '.'
  {
    if file == [] || file[0] == '.' then [] else [file[0]] + BeforeFirstDot(file[1..])
  }

  /** `get_database_names`: one name per matched file, in the order the
      directory search returned them. */
  function GetDatabaseNames(files: seq<string>): (names: seq<string>)
    ensures |names| == |files|
    ensures forall i :: 0 <= i < |files| ==> names[i] == BeforeFirstDot(files[i])
  {
    if files == [] then [] else [BeforeFirstDot(files[0])] + GetDatabaseNames(files[1..])
  }

  /** The stem is determined by the file name: the prefix without a dot that
      is followed by a dot or by the end of the name. */
  lemma {:induction false} BeforeFirstDotUnique(file: string, stem: string)
    requires |stem| <= |file| && stem == file[..|stem|] && '.' !in stem
    requires |stem| < |file| ==> file[|stem|] == '.'
    ensures BeforeFirstDot(file) == stem
  {
    if stem != [] {
      assert file[0] == stem[0];
      assert stem[1..] == file[1..][..|stem| - 1];
      BeforeFirstDotUnique(file[1..], stem[1..]);
    }
  }

  /** A dot-free vault name is listed under its own name. */
  lemma ListedNameOfPlainName(name: string)
    requires '.' !in name
    ensures BeforeFirstDot(DbFile(name)) == name
  {
    BeforeFirstDotUnique(DbFile(name), name);
  }

  /** A vault whose name holds a dot is listed under a shorter name, which is
      not a vault: `create-db -d my.vault` is listed as "my". */
  lemma ListedNameOfDottedName(name: string)
    requires '.' in name
    ensures BeforeFirstDot(DbFile(name)) != name
    ensures BeforeFirstDot(DbFile("my.vault")) == "my"
  {
    BeforeFirstDotUnique(DbFile("my.vault"), "my");
  }

  /** The corrected reading: the file name without its final extension, that
      is, up to its last dot, or the whole name when it has no dot. */
  function WithoutExtension(file: string): (stem: string)
    ensures |stem| <= |file| && stem == file[..|stem|]
    ensures |stem| < |file| ==> file[|stem|] == '.' && '.' !in file[|stem| + 1..]
    ensures |stem| == |file| ==> '.' !in file
  {
    if file == [] then []
    else if file[|file| - 1] == '.' then file[..|file| - 1]
    else if '.' in file[..|file| - 1] then
      var stem := WithoutExtension(file[..|file| - 1]);
      assert file[|stem| + 1..] == file[..|file| - 1][|stem| + 1..] + [file[|file| - 1]];
      stem
    else file
  }

  /** `list-db` with the correction: one name per file, in order. */
  function ListVaultNames(files: seq<string>): (names: seq<string>)
    ensures |names| == |files|
    ensures forall i :: 0 <= i < |files| ==> names[i] == WithoutExtension(files[i])
  {
    seq(|files|, i requires 0 <= i < |files| => WithoutExtension(files[i]))
  }

  /** With the correction every vault is listed under its own name. */
  lemma {:induction false} WithoutExtensionOfDbFile(name: string)
    ensures WithoutExtension(DbFile(name)) == name
  {
    var file := DbFile(name);
    var stem := WithoutExtension(file);
    assert file[|name|] == '.';
    assert '.' !in Extension[1..];
    assert file[|name| + 1..] == Extension[1..];
    NoDotAfter(file, |name|);
    NoDotAfter(file, |stem|);
  }

  /** `'.' !in file[p + 1..]`, position by position. */
  lemma NoDotAfter(file: string, p: nat)
    requires p < |file| && '.' !in file[p + 1..]
    ensures forall j :: p < j < |file| ==> file[j] != '.'
  {
    forall j | p < j < |file| ensures file[j] != '.' {
      assert file[j] == file[p + 1..][j - p - 1];
    }
  }

  /** Both readings agree on every file of a dot-free vault name. */
  lemma ReadingsAgreeOnPlainNames(name: string)
    requires '.' !in name
    ensures BeforeFirstDot(DbFile(name)) == WithoutExtension(DbFile(name)) == name
  {
    ListedNameOfPlainName(name);
    WithoutExtensionOfDbFile(name);
  }
}
