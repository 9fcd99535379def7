/**
 * The working copy of a data frame and the two in-place operations the
 * standardisation step applies to it: `rename(columns={from: to}, inplace=True)`
 * and `df[c] = df[c].astype(str).str.strip().str.lower()`.
 */
module Frames {
  import opened Wrappers
  import opened Tables
  import TextNorm

  /**
   * The exceptions these operations raise: `df[c]` for a label that is not
   * there raises KeyError; for a label that occurs twice it gives a frame, not
   * a column, and `.str` on it raises AttributeError.
   */
  datatype Error = KeyNotFound(name: string) | AmbiguousColumn(name: string)

  function Occurrences(columns: seq<string>, c: string): nat
  {
    multiset(columns)[c]
  }

  /** The labels after renaming: every `from` becomes `to`, positions kept. */
  function RenamedColumns(columns: seq<string>, from: string, to: string): (r: seq<string>)
    ensures |r| == |columns|
    ensures forall k :: 0 <= k < |r| ==> r[k] == (if columns[k] == from then to else columns[k])
  {
    if columns == [] then []
    else [if columns[0] == from then to else columns[0]] + RenamedColumns(columns[1..], from, to)
  }

  /** A row after renaming (a label that is not there is ignored, as pandas does). */
  function RenamedRow(row: Row, from: string, to: string): (r: Row)
    ensures from in row ==> r.Keys == row.Keys - {from} + {to} && r[to] == row[from]
    ensures from in row ==> forall c :: c in row && c != from && c != to ==> r[c] == row[c]
    ensures from !in row ==> r == row
  {
    if from in row then (row - {from})[to := row[from]] else row
  }

  function RenamedTable(t: Table, from: string, to: string): (r: Table)
    requires RowsMatch(t.columns, t.rows)
    ensures RowsMatch(r.columns, r.rows) && |r.rows| == |t.rows|
    ensures r.columns == RenamedColumns(t.columns, from, to)
    ensures forall i :: 0 <= i < |r.rows| ==> r.rows[i] == RenamedRow(t.rows[i], from, to)
  {
    var columns := RenamedColumns(t.columns, from, to);
    var rows := seq(|t.rows|, i requires 0 <= i < |t.rows| => RenamedRow(t.rows[i], from, to));
    RenamedColumnSet(t.columns, from, to);
    assert RowsMatch(columns, rows) by {
      forall i | 0 <= i < |rows| ensures rows[i].Keys == set c | c in columns {
        assert t.rows[i].Keys == set c | c in t.columns;
      }
    }
    Table(columns, rows)
  }

  /** The label set after renaming: the old label replaced by the new one, when it was there. */
  lemma RenamedColumnSet(columns: seq<string>, from: string, to: string)
    ensures forall c :: c in RenamedColumns(columns, from, to) <==> (c in columns && c != from) || (c == to && from in columns)
  {
    var r := RenamedColumns(columns, from, to);
    forall c ensures c in r <==> (c in columns && c != from) || (c == to && from in columns) {
      if c in r {
        var k :| 0 <= k < |r| && r[k] == c;
      }
      if c in columns && c != from {
        var k :| 0 <= k < |columns| && columns[k] == c;
        assert r[k] == c;
      }
      if c == to && from in columns {
        var k :| 0 <= k < |columns| && columns[k] == from;
        assert r[k] == to;
      }
    }
  }

  /** The cell `astype(str).str.strip().str.lower()` makes of `v`. */
  function NormalizedCell(v: Cell): (r: Cell)
    ensures r.Text? && TextNorm.IsNormal(r.text)
  {
    TextNorm.NormalizeIsNormal(Str(v));
    Text(TextNorm.Normalize(Str(v)))
  }

  /** Rewrites column `c` in place of the old one, or raises. */
  function NormalizedColumn(t: Table, c: string): (r: Result<Table, Error>)
    requires RowsMatch(t.columns, t.rows)
    ensures r == Err(KeyNotFound(c)) <==> c !in t.columns
    ensures r == Err(AmbiguousColumn(c)) <==> Occurrences(t.columns, c) > 1
    ensures r.Ok? <==> Occurrences(t.columns, c) == 1
    ensures r.Ok? ==> r.value.columns == t.columns && |r.value.rows| == |t.rows|
    ensures r.Ok? ==> RowsMatch(r.value.columns, r.value.rows)
    ensures r.Ok? ==> forall i :: 0 <= i < |t.rows| ==>
      r.value.rows[i][c] == NormalizedCell(t.rows[i][c])
      && forall d :: d in t.rows[i] && d != c ==> r.value.rows[i][d] == t.rows[i][d]
  {
    var n := Occurrences(t.columns, c);
    if n == 0 then Err(KeyNotFound(c))
    else if n > 1 then Err(AmbiguousColumn(c))
    else
      var rows := seq(|t.rows|, i requires 0 <= i < |t.rows| => t.rows[i][c := NormalizedCell(t.rows[i][c])]);
      Ok(Table(t.columns, rows))
  }

  /** A working copy: a frame whose labels and cells are changed in place. */
  class Frame {
    var columns: seq<string>
    var rows: seq<Row>

    ghost predicate Valid()
      reads this
    {
      RowsMatch(columns, rows)
    }

    /** The frame's current value. */
    function View(): Table
      reads this
    {
      Table(columns, rows)
    }

    /** `df.copy()`. */
    constructor Copy(t: Table)
      requires RowsMatch(t.columns, t.rows)
      ensures Valid() && View() == t
    {
      columns := t.columns;
      rows := t.rows;
    }

    /** `df.rename(columns={from: to}, inplace=True)`. */
    method Rename(from: string, to: string)
      requires Valid()
      modifies this
      ensures Valid()
      ensures View() == RenamedTable(old(View()), from, to)
    {
      var t := RenamedTable(View(), from, to);
      columns, rows := t.columns, t.rows;
    }

    /** `df[c] = df[c].astype(str).str.strip().str.lower()`; on an exception the frame is untouched. */
    method NormalizeColumn(c: string) returns (err: Option<Error>)
      requires Valid()
      modifies this
      ensures Valid()
      ensures match NormalizedColumn(old(View()), c)
              case Ok(t) => err.None? && View() == t
              case Err(e) => err == Some(e) && View() == old(View())
    {
      var r := NormalizedColumn(View(), c);
      match r
      case Ok(t) =>
        columns, rows := t.columns, t.rows;
        err := None;
      case Err(e) =>
        err := Some(e);
    }
  }
}
