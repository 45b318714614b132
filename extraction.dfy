/**
 * The table-to-records extraction of the forecast page (the `.then` callback
 * of app.js). The DOM library is abstracted away:
 *  - `keys[j]` is the property name the runtime derives from heading cell j
 *    (the source uses the heading's first child node as the key, not its text);
 *  - `rows[i]` is the sequence of `td` contents (`innerHTML`) of table row i,
 *    row 0 being the header row;
 *  - a record is the object built for one data row, as a finite map.
 */
module Extraction {
  import opened Wrappers

  /** The object built for one data row: derived key |-> cell markup. */
  type Record = map<string, string>

  /**
   * Reading `td[column]` of a row that has only `column` cells yields
   * `undefined`, and reading `.innerHTML` of it throws; the whole callback
   * is abandoned.
   */
  datatype ExtractError = MissingCell(row: nat, column: nat)

  /** Every data row (every row after the header row) has a cell per heading. */
  predicate RowsCover(keys: seq<string>, rows: seq<seq<string>>)
  {
    forall i :: 1 <= i < |rows| ==> |keys| <= |rows[i]|
  }

  /** The set of keys the headings yield. */
  function KeySet(keys: seq<string>): set<string>
  {
    set k | k in keys
  }

  /**
   * The record built from `cells` by assigning `cells[j]` to `keys[j]` for
   * j = 0, 1, ... in turn: a later assignment to the same key overwrites,
   * so the record has at most one entry per heading and the last heading's
   * cell always survives.
   */
  function RecordOf(keys: seq<string>, cells: seq<string>): (r: Record)
    requires |keys| <= |cells|
    ensures |r| <= |keys|
    ensures |keys| > 0 ==> keys[|keys| - 1] in r && r[keys[|keys| - 1]] == cells[|keys| - 1]
    decreases |keys|
  {
    if keys == [] then map[]
    else RecordOf(keys[..|keys| - 1], cells)[keys[|keys| - 1] := cells[|keys| - 1]]
  }

  /**
   * The records of all data rows, in row order. The header row is skipped:
   * one record per data row, none when only the header row exists.
   */
  function Table(keys: seq<string>, rows: seq<seq<string>>): (r: seq<Record>)
    requires RowsCover(keys, rows)
    ensures |r| == if |rows| == 0 then 0 else |rows| - 1
    decreases |rows|
  {
    if |rows| <= 1 then []
    else
      assert RowsCover(keys, rows[..|rows| - 1]);
      Table(keys, rows[..|rows| - 1]) + [RecordOf(keys, rows[|rows| - 1])]
  }

  /**
   * The nested loop of the callback: for every row after the header row,
   * build an object key by key and push it onto `tableData`. The first
   * missing cell (in loop order) aborts the whole extraction.
   */
  method ExtractTable(keys: seq<string>, rows: seq<seq<string>>)
    returns (r: Result<seq<Record>, ExtractError>)
    ensures r.Success? <==> RowsCover(keys, rows)
    ensures r.Success? ==> r.value == Table(keys, rows)
    ensures r.Failure? ==>
              var i := r.error.row;
              && 1 <= i < |rows|
              && r.error.column == |rows[i]| < |keys|
              && RowsCover(keys, rows[..i])
  {
    var tableData: seq<Record> := [];
    var i := 1;
    while i < |rows|
      invariant 1 <= i
      invariant |rows| >= 1 ==> i <= |rows|
      invariant |rows| >= 1 ==> RowsCover(keys, rows[..i]) && tableData == Table(keys, rows[..i])
      invariant |rows| == 0 ==> tableData == []
    {
      var obj: Record := map[];
      var j := 0;
      while j < |keys|
        invariant 0 <= j <= |keys|
        invariant j <= |rows[i]|
        invariant obj == RecordOf(keys[..j], rows[i])
      {
        var heading := keys[j];
        if j >= |rows[i]| {
          return Failure(MissingCell(i, j));
        }
        var value := rows[i][j];
        assert keys[..j + 1][..j] == keys[..j];
        obj := obj[heading := value];
        j := j + 1;
      }
      assert keys[..|keys|] == keys;
      assert rows[..i + 1][..i] == rows[..i];
      assert RowsCover(keys, rows[..i + 1]);
      tableData := tableData + [obj];
      i := i + 1;
    }
    if |rows| >= 1 {
      assert rows[..|rows|] == rows;
    }
    return Success(tableData);
  }

  // ---------------------------------------------------------------------
  // Properties of one record
  // ---------------------------------------------------------------------

  /** A record's key set is exactly the set of keys the headings yield. */
  lemma {:induction false} RecordKeys(keys: seq<string>, cells: seq<string>)
    requires |keys| <= |cells|
    ensures RecordOf(keys, cells).Keys == KeySet(keys)
    decreases |keys|
  {
    if keys != [] {
      var n := |keys|;
      RecordKeys(keys[..n - 1], cells);
      assert keys == keys[..n - 1] + [keys[n - 1]];
      assert KeySet(keys) == KeySet(keys[..n - 1]) + {keys[n - 1]};
    }
  }

  /**
   * Last write wins: the value under key `keys[j]` is cell j when no later
   * heading yields the same key.
   */
  lemma {:induction false} RecordLastWriteWins(keys: seq<string>, cells: seq<string>, j: nat)
    requires |keys| <= |cells|
    requires j < |keys|
    requires forall m :: j < m < |keys| ==> keys[m] != keys[j]
    ensures keys[j] in RecordOf(keys, cells)
    ensures RecordOf(keys, cells)[keys[j]] == cells[j]
    decreases |keys|
  {
    var n := |keys|;
    if j < n - 1 {
      RecordLastWriteWins(keys[..n - 1], cells, j);
    }
  }

  /** With pairwise distinct keys a record has exactly one entry per heading, holding that heading's cell. */
  lemma {:induction false} RecordDistinctKeys(keys: seq<string>, cells: seq<string>)
    requires |keys| <= |cells|
    requires forall a, b :: 0 <= a < b < |keys| ==> keys[a] != keys[b]
    ensures RecordOf(keys, cells).Keys == KeySet(keys)
    ensures |RecordOf(keys, cells)| == |keys|
    ensures forall j :: 0 <= j < |keys| ==> RecordOf(keys, cells)[keys[j]] == cells[j]
    decreases |keys|
  {
    RecordKeys(keys, cells);
    if keys != [] {
      var n := |keys|;
      var init := keys[..n - 1];
      RecordDistinctKeys(init, cells);
      RecordKeys(init, cells);
      assert keys[n - 1] !in KeySet(init) by {
        forall a | 0 <= a < n - 1
          ensures init[a] != keys[n - 1]
        {
          assert init[a] == keys[a];
        }
      }
    }
    forall j | 0 <= j < |keys|
      ensures RecordOf(keys, cells)[keys[j]] == cells[j]
    {
      RecordLastWriteWins(keys, cells, j);
    }
  }

  /**
   * When every heading yields the same key `k` (for instance when the
   * runtime coerces every heading node to one property name), a record
   * keeps only the cell of the last heading.
   */
  lemma {:induction false} RecordOneKey(keys: seq<string>, cells: seq<string>, k: string)
    requires |keys| <= |cells|
    requires |keys| > 0
    requires forall j :: 0 <= j < |keys| ==> keys[j] == k
    ensures RecordOf(keys, cells) == map[k := cells[|keys| - 1]]
  {
    RecordKeys(keys, cells);
    RecordLastWriteWins(keys, cells, |keys| - 1);
    assert KeySet(keys) == {k};
  }

  /** Cells beyond the last heading are never read. */
  lemma {:induction false} RecordIgnoresExtraCells(keys: seq<string>, cells: seq<string>, other: seq<string>)
    requires |keys| <= |cells| && |keys| <= |other|
    requires cells[..|keys|] == other[..|keys|]
    ensures RecordOf(keys, cells) == RecordOf(keys, other)
    decreases |keys|
  {
    var n := |keys|;
    if n > 0 {
      assert cells[..n - 1] == cells[..n][..n - 1];
      assert other[..n - 1] == other[..n][..n - 1];
      assert cells[n - 1] == cells[..n][n - 1];
      assert other[n - 1] == other[..n][n - 1];
      RecordIgnoresExtraCells(keys[..n - 1], cells, other);
    }
  }

  // ---------------------------------------------------------------------
  // Properties of the whole table
  // ---------------------------------------------------------------------

  /** Row order is preserved: record k is built from row k + 1. */
  lemma {:induction false} TableRowOrder(keys: seq<string>, rows: seq<seq<string>>, k: nat)
    requires RowsCover(keys, rows)
    requires k + 1 < |rows|
    // Already given by Table's own contract; stated so that the index below is plainly in range.
    ensures |Table(keys, rows)| == |rows| - 1
    ensures Table(keys, rows)[k] == RecordOf(keys, rows[k + 1])
    decreases |rows|
  {
    var n := |rows|;
    assert RowsCover(keys, rows[..n - 1]);
    if k + 1 < n - 1 {
      TableRowOrder(keys, rows[..n - 1], k);
    }
  }

  /** Every record of the table has the same key set: the keys of the headings. */
  lemma TableKeySets(keys: seq<string>, rows: seq<seq<string>>)
    requires RowsCover(keys, rows)
    ensures forall k :: 0 <= k < |Table(keys, rows)| ==> Table(keys, rows)[k].Keys == KeySet(keys)
  {
    forall k | 0 <= k < |Table(keys, rows)|
      ensures Table(keys, rows)[k].Keys == KeySet(keys)
    {
      TableRowOrder(keys, rows, k);
      RecordKeys(keys, rows[k + 1]);
    }
  }

  /** The contents of the header row (rows[0]) never reach the table. */
  lemma TableIgnoresHeaderRow(keys: seq<string>, rows: seq<seq<string>>, header: seq<string>)
    requires RowsCover(keys, rows)
    requires |rows| >= 1
    ensures RowsCover(keys, [header] + rows[1..])
    ensures Table(keys, rows) == Table(keys, [header] + rows[1..])
  {
    var other := [header] + rows[1..];
    assert forall i :: 1 <= i < |rows| ==> other[i] == rows[i];
    assert RowsCover(keys, other);
    forall k | 0 <= k < |rows| - 1
      ensures Table(keys, rows)[k] == Table(keys, other)[k]
    {
      TableRowOrder(keys, rows, k);
      TableRowOrder(keys, other, k);
    }
  }
}
