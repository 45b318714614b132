/**
 * The stop-identifier list read at start-up from data/luas-stops.txt
 * (tab-separated). The CSV library is abstracted away: its `headers` event
 * delivers the header names, each `data` event one row as a map from header
 * name to field.
 */
module StopList {
  import opened Wrappers

  /** One parsed line of the stop file: header name |-> field. */
  type Row = map<string, string>

  /** JavaScript converts an `undefined` property name to this string. */
  const UNDEFINED_KEY: string := "undefined"

  /** The key column fixed by the `headers` event: the first header, or `undefined`. */
  function KeyColumn(headers: seq<string>): Option<string>
  {
    if |headers| > 0 then Some(headers[0]) else None
  }

  /**
   * The property name looked up on each row for a given key column: the
   * column itself, or the name `undefined` converts to when there is none.
   */
  function KeyName(column: Option<string>): string
  {
    match column
    case Some(k) => k
    case None => UNDEFINED_KEY
  }

  /** `row[key]`: the field, or `undefined` when the row has no such property. */
  function Lookup(row: Row, key: string): Option<string>
  {
    if key in row then Some(row[key]) else None
  }

  /** The identifiers pushed for `rows`, in arrival order, under a fixed key column. */
  function StopIds(column: Option<string>, rows: seq<Row>): (ids: seq<Option<string>>)
    ensures |ids| == |rows|
    decreases |rows|
  {
    if rows == [] then []
    else StopIds(column, rows[..|rows| - 1]) + [Lookup(rows[|rows| - 1], KeyName(column))]
  }

  /** The two module-level variables `stopIDs` and `stopID` and the stream callbacks that update them. */
  class StopIdCollector {
    var stopIds: seq<Option<string>>
    var keyColumn: Option<string>

    constructor ()
      ensures stopIds == [] && keyColumn == None
    {
      stopIds := [];
      keyColumn := None;
    }

    /** The `headers` callback: the key column becomes the first header. */
    method OnHeaders(headers: seq<string>)
      modifies this
      ensures keyColumn == KeyColumn(headers)
      ensures stopIds == old(stopIds)
    {
      keyColumn := KeyColumn(headers);
    }

    /** The `data` callback: append the row's key-column field. */
    method OnData(row: Row)
      modifies this
      ensures keyColumn == old(keyColumn)
      ensures stopIds == old(stopIds) + [Lookup(row, KeyName(keyColumn))]
    {
      var key := KeyName(keyColumn);
      stopIds := stopIds + [Lookup(row, key)];
    }
  }

  /**
   * One pass over the stop file: the `headers` event, then one `data` event
   * per row, as the stream delivers them.
   */
  method CollectStopIds(headers: seq<string>, rows: seq<Row>) returns (ids: seq<Option<string>>)
    ensures ids == StopIds(KeyColumn(headers), rows)
  {
    var collector := new StopIdCollector();
    collector.OnHeaders(headers);
    for k := 0 to |rows|
      invariant collector.keyColumn == KeyColumn(headers)
      invariant collector.stopIds == StopIds(KeyColumn(headers), rows[..k])
    {
      assert rows[..k + 1][..k] == rows[..k];
      collector.OnData(rows[k]);
    }
    assert rows[..|rows|] == rows;
    ids := collector.stopIds;
  }

  /** One identifier per row, in row order, each the row's field under the key column. */
  lemma {:induction false} StopIdsAt(column: Option<string>, rows: seq<Row>)
    ensures |StopIds(column, rows)| == |rows|
    ensures forall i :: 0 <= i < |rows| ==> StopIds(column, rows)[i] == Lookup(rows[i], KeyName(column))
    decreases |rows|
  {
    if rows != [] {
      StopIdsAt(column, rows[..|rows| - 1]);
    }
  }

  /** With a header line, every row that has the first header's field contributes exactly that field. */
  lemma StopIdsFromFirstHeader(headers: seq<string>, rows: seq<Row>, i: nat)
    requires |headers| > 0
    requires i < |rows|
    requires headers[0] in rows[i]
    ensures |StopIds(KeyColumn(headers), rows)| == |rows|
    ensures StopIds(KeyColumn(headers), rows)[i] == Some(rows[i][headers[0]])
  {
    StopIdsAt(KeyColumn(headers), rows);
  }

  /** Collecting over a concatenation of rows gives the concatenation of the two collections. */
  lemma {:induction false} StopIdsAppend(column: Option<string>, first: seq<Row>, second: seq<Row>)
    ensures StopIds(column, first + second) == StopIds(column, first) + StopIds(column, second)
    decreases |second|
  {
    if second != [] {
      var n := |second|;
      var all := first + second;
      assert all[..|all| - 1] == first + second[..n - 1];
      assert all[|all| - 1] == second[n - 1];
      StopIdsAppend(column, first, second[..n - 1]);
    } else {
      assert first + second == first;
    }
  }
}
