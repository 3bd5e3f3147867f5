/** The entry operations of the `add` and `remove` subcommands, which change
    the opened vault's row list in place. */
module Entries {
  import opened Wrappers
  import opened Decimal
  import opened Rows
  import Password

  /** How `remove` ends: the row is gone and the rest re-indexed; the index was
      refused; or the re-index loop met an entry row without a field 0 (an
      IndexError) at `position`, after re-indexing the rows before it. */
  datatype RemoveOutcome = Removed | InvalidIndex | MissingIndexField(position: nat)

  /** The opened vault's `rows`: the header row, then one row per entry. */
  class RowList {
    var rows: seq<Row>

    constructor (initial: seq<Row>)
      ensures rows == initial
    {
      rows := initial;
    }

    /** `add`: the index is the current row count, which counts the header and
        so is one more than the number of entries; the password is generated
        for the requested length; then the entry is appended. A failing
        password generation leaves the rows as they were. */
    method Add(title: string, username: string, lengthOption: Option<int>) returns (password: Option<string>)
      modifies this
      ensures var n := Password.EffectiveLength(Password.LengthArgument(lengthOption));
              && (password.None? <==> n / 4 > |Password.Digits|)
              && (password.Some? ==> Password.Composed(password.value, n))
      ensures password.None? ==> rows == old(rows)
      ensures password.Some? ==>
                rows == old(rows) + [EntryRow(NatToString(|old(rows)|), title, username, password.value)]
      ensures Indexed(old(rows)) ==> Indexed(rows)
    {
      password := Password.CreateRandomPassword(Password.LengthArgument(lengthOption));
      if password.None? {
        return;
      }
      AppendEntry(title, username, password.value);
    }

    /** `rows.append([str(len(rows)), title, username, password])` once the
        password exists. */
    method AppendEntry(title: string, username: string, password: string)
      modifies this
      ensures rows == old(rows) + [EntryRow(NatToString(|old(rows)|), title, username, password)]
      ensures Indexed(old(rows)) ==> Indexed(rows)
    {
      var index := NatToString(|rows|);
      if Indexed(rows) {
        AppendKeepsIndexed(rows, EntryRow(index, title, username, password));
      }
      rows := rows + [EntryRow(index, title, username, password)];
    }

    /** `remove`: accepts a 1-based entry index `i` only when `1 <= i < len(rows)`,
        pops that row, then writes `str(k)` into field 0 of every row at
        position `k >= 1`. */
    method Remove(index: int) returns (outcome: RemoveOutcome)
      modifies this
      ensures !(1 <= index < |old(rows)|) <==> outcome == InvalidIndex
      ensures outcome == InvalidIndex ==> rows == old(rows)
      ensures outcome == Removed ==>
                && EntriesHaveIndexField(RemoveAt(old(rows), index))
                && rows == Reindexed(RemoveAt(old(rows), index))
      ensures outcome.MissingIndexField? ==>
                && 1 <= index < |old(rows)|
                && var popped := RemoveAt(old(rows), index);
                && 1 <= outcome.position < |popped|
                && |popped[outcome.position]| == 0
                && (forall k :: 1 <= k < outcome.position ==> |popped[k]| > 0)
                && rows == ReindexedBelow(popped, outcome.position)
    {
      if !(1 <= index < |rows|) {
        return InvalidIndex;
      }
      rows := rows[..index] + rows[index + 1..];
      ghost var popped := rows;
      for k := 0 to |rows|
        invariant |rows| == |popped|
        invariant forall j :: 1 <= j < k ==> |popped[j]| > 0
        invariant rows == ReindexedBelow(popped, k)
      {
        if k > 0 {
          if |rows[k]| == 0 {
            return MissingIndexField(k);
          }
          rows := rows[k := WithIndex(rows[k], k)];
        }
      }
      return Removed;
    }
  }
}
