/** `csv_checker`: the rows come from one `csv.reader`, an iterator that is
    consumed as it is read. The search for each value resumes at the row after
    the one where the previous value was found, and once the reader is used
    up no later value can be found. A row matches a value when one of its
    cells equals the value (membership in the list of cells). */
module CsvCheck {
  import opened Events

  /** Python's `item in line` where `line` is a list of cells: some cell
      equals `item` exactly. */
  predicate RowHas(row: seq<string>, item: string)
    ensures RowHas(row, item) <==> exists j :: 0 <= j < |row| && row[j] == item
    ensures RowHas(row, item) ==> row != []
  {
    item in row
  }

  /** Where the reader stops when searching for `item` from row `from`: the
      first matching row at or after `from`, or `|rows|` when the reader runs
      out. */
  function NextRow(item: string, rows: seq<seq<string>>, from: nat): (k: nat)
    requires from <= |rows|
    ensures from <= k <= |rows|
    ensures k < |rows| ==> RowHas(rows[k], item)
    ensures forall j :: from <= j < k ==> !RowHas(rows[j], item)
    decreases |rows| - from
  {
    if from == |rows| then |rows|
    else if RowHas(rows[from], item) then from
    else NextRow(item, rows, from + 1)
  }

  /** The reader position after a search that stopped at `k`: past the
      matching row, or at the end when nothing matched. */
  function After(k: nat, rows: seq<seq<string>>): (next: nat)
    requires k <= |rows|
    ensures k < |rows| ==> next == k + 1
    ensures k == |rows| ==> next == |rows|
  {
    if k < |rows| then k + 1 else k
  }

  /** The number of values the greedy scan finds, starting with the reader
      at row `from`. */
  function ScanCount(values: seq<string>, rows: seq<seq<string>>, from: nat): (c: nat)
    requires from <= |rows|
    ensures c <= |values|
    decreases values
  {
    if values == [] then 0
    else
      var k := NextRow(values[0], rows, from);
      (if k < |rows| then 1 else 0) + ScanCount(values[1..], rows, After(k, rows))
  }

  /** `idx` assigns to each value a row at or after `from` that has it, the
      rows strictly increasing. */
  ghost predicate InOrder(values: seq<string>, rows: seq<seq<string>>, idx: seq<nat>, from: nat)
  {
    && |idx| == |values|
    && (forall k :: 0 <= k < |idx| ==> from <= idx[k] < |rows| && RowHas(rows[idx[k]], values[k]))
    && (forall j, k :: 0 <= j < k < |idx| ==> idx[j] < idx[k])
  }

  /** The values can be found, in their order, in strictly increasing rows
      at or after `from`. */
  ghost predicate Matchable(values: seq<string>, rows: seq<seq<string>>, from: nat)
  {
    exists idx :: InOrder(values, rows, idx, from)
  }

  /** Prepending a row before an in-order assignment extends it. */
  lemma InOrderCons(item: string, tail: seq<string>, rows: seq<seq<string>>, k: nat, rest: seq<nat>, from: nat)
    requires from <= k < |rows| && RowHas(rows[k], item)
    requires InOrder(tail, rows, rest, k + 1)
    ensures InOrder([item] + tail, rows, [k] + rest, from)
  {
  }

  /** Dropping the first value of an in-order assignment leaves one for the
      rest that starts after any row not beyond the first one. */
  lemma InOrderTail(values: seq<string>, rows: seq<seq<string>>, idx: seq<nat>, from: nat, k: nat)
    requires InOrder(values, rows, idx, from) && values != [] && k <= idx[0]
    ensures InOrder(values[1..], rows, idx[1..], k + 1)
  {
  }

  /** An empty list of values is matched by the empty assignment. */
  lemma EmptyValuesMatch(rows: seq<seq<string>>)
    ensures Matchable([], rows, 0)
  {
    assert InOrder([], rows, [], 0);
  }

  /** Every value found by the greedy scan was found in an in-order
      assignment of rows: a full count yields one. */
  lemma {:induction false} ScanSound(values: seq<string>, rows: seq<seq<string>>, from: nat)
    requires from <= |rows|
    requires ScanCount(values, rows, from) == |values|
    ensures Matchable(values, rows, from)
  {
    if values == [] {
      assert InOrder(values, rows, [], from);
    } else {
      var k := NextRow(values[0], rows, from);
      assert k < |rows|;
      ScanSound(values[1..], rows, k + 1);
      var rest :| InOrder(values[1..], rows, rest, k + 1);
      InOrderCons(values[0], values[1..], rows, k, rest, from);
      assert [values[0]] + values[1..] == values;
    }
  }

  /** The greedy scan is never behind an in-order assignment: if one exists,
      the scan finds every value. */
  lemma {:induction false} ScanComplete(values: seq<string>, rows: seq<seq<string>>, from: nat, idx: seq<nat>)
    requires from <= |rows|
    requires InOrder(values, rows, idx, from)
    ensures ScanCount(values, rows, from) == |values|
  {
    if values != [] {
      var k := NextRow(values[0], rows, from);
      assert k <= idx[0];
      InOrderTail(values, rows, idx, from, k);
      ScanComplete(values[1..], rows, k + 1, idx[1..]);
    }
  }

  /** The verdict of `csv_checker` in declarative terms. */
  lemma ScanPassesIffMatchable(values: seq<string>, rows: seq<seq<string>>)
    ensures ScanCount(values, rows, 0) == |values| <==> Matchable(values, rows, 0)
  {
    if ScanCount(values, rows, 0) == |values| {
      ScanSound(values, rows, 0);
    }
    if Matchable(values, rows, 0) {
      var idx :| InOrder(values, rows, idx, 0);
      ScanComplete(values, rows, 0, idx);
    }
  }

  /** A used-up reader finds nothing. */
  lemma {:induction false} ExhaustedFindsNothing(values: seq<string>, rows: seq<seq<string>>)
    ensures ScanCount(values, rows, |rows|) == 0
  {
    if values != [] {
      ExhaustedFindsNothing(values[1..], rows);
    }
  }

  /** The count is the length of the longest prefix of the values that can be
      matched in order: the first `c` values can, and the first `c + 1`
      cannot. So once one value is missed, no later value is counted, even
      one that occurs in a row the reader has already passed. */
  lemma {:induction false} ScanCountIsLongestPrefix(values: seq<string>, rows: seq<seq<string>>, from: nat)
    requires from <= |rows|
    ensures var c := ScanCount(values, rows, from);
      && Matchable(values[..c], rows, from)
      && (c < |values| ==> !Matchable(values[..c + 1], rows, from))
  {
    var c := ScanCount(values, rows, from);
    if values == [] {
      assert InOrder(values[..c], rows, [], from);
    } else {
      var k := NextRow(values[0], rows, from);
      if k == |rows| {
        ExhaustedFindsNothing(values[1..], rows);
        assert c == 0;
        assert InOrder(values[..0], rows, [], from);
      } else {
        var tail := values[1..];
        var c' := ScanCount(tail, rows, k + 1);
        assert c == c' + 1;
        ScanCountIsLongestPrefix(tail, rows, k + 1);
        var rest :| InOrder(tail[..c'], rows, rest, k + 1);
        assert values[..c] == [values[0]] + tail[..c'];
        InOrderCons(values[0], tail[..c'], rows, k, rest, from);
        if c < |values| && Matchable(values[..c + 1], rows, from) {
          var longer :| InOrder(values[..c + 1], rows, longer, from);
          assert values[..c + 1][1..] == tail[..c' + 1];
          InOrderTail(values[..c + 1], rows, longer, from, k);
          assert false;
        }
      }
    }
  }

  /** `csv_checker` over the rows of one reader: `cursor` is the reader's
      position, which only moves forward and is shared by all the values;
      `check` counts the values found. The event passes exactly when the
      values can be matched, in order, to strictly increasing rows. */
  method CheckCsv(values: seq<string>, rows: seq<seq<string>>, path: string)
    returns (check: nat, ev: Event)
    ensures check == ScanCount(values, rows, 0) && check <= |values|
    ensures ev == Verdict(values, path, check)
    ensures ev.Pass? <==> Matchable(values, rows, 0)
  {
    check := 0;
    var cursor := 0;
    var k := 0;
    while k < |values|
      invariant 0 <= k <= |values| && cursor <= |rows|
      invariant check <= k
      invariant check + ScanCount(values[k..], rows, cursor) == ScanCount(values, rows, 0)
    {
      var item := values[k];
      ghost var start := cursor;
      ghost var stop := NextRow(item, rows, start);
      while cursor < |rows|
        invariant start <= cursor <= |rows|
        invariant forall j :: start <= j < cursor ==> !RowHas(rows[j], item)
      {
        var line := rows[cursor];
        cursor := cursor + 1;
        if RowHas(line, item) {
          check := check + 1;
          break;
        }
      }
      assert cursor == After(stop, rows);
      assert values[k..][1..] == values[k + 1..];
      k := k + 1;
    }
    ScanPassesIffMatchable(values, rows);
    ev := Verdict(values, path, check);
  }

  /** Each value occurs in some row, but in the opposite order: the reader
      passes the row holding "a" while looking for "b", so "a" is missed. */
  lemma OutOfOrderValuesFail()
    ensures ScanCount(["b", "a"], [["a"], ["b"]], 0) == 1
    ensures !Matchable(["b", "a"], [["a"], ["b"]], 0)
  {
  }

  /** A cell must equal the value: a value that is only part of a cell is
      not found. */
  lemma CellMustEqualValue()
    ensures ScanCount(["An Apple Iphone"], [["1", "An Apple Iphone"]], 0) == 1
    ensures ScanCount(["Apple"], [["1", "An Apple Iphone"]], 0) == 0
  {
  }
}
