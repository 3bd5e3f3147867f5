/** The in-memory row list of an opened vault: a header row followed by one row
    per entry, each row a list of decrypted cells. This module holds the pure
    definitions that the entry operations are specified against. */
module Rows {
  import opened Wrappers
  import opened Decimal

  /** A decrypted cell; `None` is a token that did not decrypt. */
  type Cell = Option<string>
  type Row = seq<Cell>

  /** The index cell an entry at position `k` carries: `str(k)`. */
  function IndexCell(k: nat): Cell {
    Some(NatToString(k))
  }

  /** The row appended for a new entry: `[index, title, username, password]`. */
  function EntryRow(index: string, title: string, username: string, password: string): (r: Row)
    ensures |r| == 4 && r[0] == Some(index)
  {
    [Some(index), Some(title), Some(username), Some(password)]
  }

  /** Every entry row (every row after the header) has a field 0 to overwrite. */
  predicate EntriesHaveIndexField(rows: seq<Row>) {
    forall k :: 1 <= k < |rows| ==> |rows[k]| > 0
  }

  /** The vault invariant: entry `k` (header excluded) has index `str(k)`. */
  predicate Indexed(rows: seq<Row>) {
    forall k :: 1 <= k < |rows| ==> |rows[k]| > 0 && rows[k][0] == IndexCell(k)
  }

  /** `row[0] = str(k)` on one row. */
  function WithIndex(row: Row, k: nat): (r: Row)
    requires |row| > 0
    ensures |r| == |row| && r[0] == IndexCell(k)
    ensures forall j :: 1 <= j < |r| ==> r[j] == row[j]
  {
    [IndexCell(k)] + row[1..]
  }

  /** The rows after the re-index loop has visited positions `0 .. n-1`. */
  function ReindexedBelow(rows: seq<Row>, n: nat): (r: seq<Row>)
    requires n <= |rows|
    requires forall k :: 1 <= k < n ==> |rows[k]| > 0
    ensures |r| == |rows|
  {
    seq(|rows|, k requires 0 <= k < |rows| => if 1 <= k < n then WithIndex(rows[k], k) else rows[k])
  }

  /** The rows after the whole re-index loop. */
  function Reindexed(rows: seq<Row>): seq<Row>
    requires EntriesHaveIndexField(rows)
  {
    ReindexedBelow(rows, |rows|)
  }

  /** `rows.pop(i)`. */
  function RemoveAt(rows: seq<Row>, i: nat): (r: seq<Row>)
    requires i < |rows|
    ensures |r| == |rows| - 1
  {
    rows[..i] + rows[i + 1..]
  }

  /** Re-indexing establishes the invariant, keeps the length and the header,
      and changes nothing but field 0 of each entry. */
  lemma ReindexedIsIndexed(rows: seq<Row>)
    requires EntriesHaveIndexField(rows)
    ensures Indexed(Reindexed(rows))
    ensures |Reindexed(rows)| == |rows|
    ensures |rows| > 0 ==> Reindexed(rows)[0] == rows[0]
    ensures forall k :: 1 <= k < |rows| ==>
              |Reindexed(rows)[k]| == |rows[k]| && Reindexed(rows)[k][1..] == rows[k][1..]
  {
  }

  /** On rows that already satisfy the invariant the re-index loop changes
      nothing (removing the last entry re-scans without effect). */
  lemma {:induction false} ReindexedFixesIndexed(rows: seq<Row>)
    requires Indexed(rows)
    ensures Reindexed(rows) == rows
  {
    forall k | 0 <= k < |rows| ensures Reindexed(rows)[k] == rows[k] {
      if k >= 1 {
        assert rows[k] == [rows[k][0]] + rows[k][1..];
      }
    }
  }

  /** Removing entry `i` from indexed rows: one row fewer, the header and the
      entries before `i` untouched, every later entry moved up one place with
      its index lowered to its new position and its other fields kept. */
  lemma RemoveKeepsOrder(rows: seq<Row>, i: nat)
    requires Indexed(rows)
    requires 1 <= i < |rows|
    ensures EntriesHaveIndexField(RemoveAt(rows, i))
    ensures var r := Reindexed(RemoveAt(rows, i));
            && |r| == |rows| - 1
            && Indexed(r)
            && (forall k :: 0 <= k < i ==> r[k] == rows[k])
            && (forall k :: i <= k < |r| ==>
                  |r[k]| == |rows[k + 1]| && r[k][0] == IndexCell(k) && r[k][1..] == rows[k + 1][1..])
  {
    var p := RemoveAt(rows, i);
    ReindexedIsIndexed(p);
    var r := Reindexed(p);
    forall k | 0 <= k < i ensures r[k] == rows[k] {
      if k >= 1 {
        assert rows[k] == [rows[k][0]] + rows[k][1..];
      }
    }
  }

  /** Appending an entry whose field 0 is the next index keeps the invariant. */
  lemma AppendKeepsIndexed(rows: seq<Row>, entry: Row)
    requires Indexed(rows)
    requires |entry| > 0 && entry[0] == IndexCell(|rows|)
    ensures Indexed(rows + [entry])
  {
    var r := rows + [entry];
    assert forall k :: 1 <= k < |rows| ==> r[k] == rows[k];
  }

  /** Under the invariant the index field of every entry reads back, as a
      number, as the entry's position. */
  lemma IndexFieldReadsAsPosition(rows: seq<Row>)
    requires Indexed(rows)
    ensures forall k :: 1 <= k < |rows| ==>
              rows[k][0].Some? && ParseDecimal(rows[k][0].value) == k
  {
    forall k | 1 <= k < |rows| ensures ParseDecimal(rows[k][0].value) == k {
      ParseNatToString(k);
    }
  }

  /** Removing the first of two entries: the former second entry becomes
      entry 1, with index "1". */
  lemma RemoveFirstOfTwo(header: Row, first: Row, second: Row)
    requires Indexed([header, first, second])
    ensures var r := Reindexed(RemoveAt([header, first, second], 1));
            && |r| == 2 && r[0] == header
            && r[1][0] == Some("1") && r[1][1..] == second[1..]
  {
    RemoveKeepsOrder([header, first, second], 1);
    assert NatToString(1) == "1";
  }
}
