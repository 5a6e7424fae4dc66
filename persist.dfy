/** The spreadsheet boundary, as data. A sheet is its column headers and, per
    row, the values of the `Name` and `Annotation` columns; reading and writing
    the file itself belongs to the spreadsheet library and is not modelled. */
module Persist {

  /** (Name, Annotation) of one spreadsheet row. */
  type Row = (string, string)

  /** A spreadsheet as read: its column headers and its rows. */
  datatype Sheet = Sheet(columns: seq<string>, rows: seq<Row>)

  /** The check both versions make before reading any row. */
  predicate HasRequiredColumns(sheet: Sheet)
  {
    "Name" in sheet.columns && "Annotation" in sheet.columns
  }

  function RowNames(rows: seq<Row>): set<string>
  {
    set i | 0 <= i < |rows| :: rows[i].0
  }

  /** `rows` lists the items of `m`, each exactly once, in some order
      (`list(annotations.items())`: the order is the dictionary's insertion order). */
  ghost predicate IsRowsOf(rows: seq<Row>, m: map<string, string>)
  {
    && (forall i :: 0 <= i < |rows| ==> rows[i].0 in m && m[rows[i].0] == rows[i].1)
    && (forall i, j :: 0 <= i < j < |rows| ==> rows[i].0 != rows[j].0)
    && RowNames(rows) == m.Keys
  }

  /** The rows written for the store `m`: every entry once. */
  method Rows(m: map<string, string>) returns (rows: seq<Row>)
    ensures IsRowsOf(rows, m)
    ensures |rows| == |m|
  {
    rows := [];
    var remaining := m.Keys;
    while remaining != {}
      invariant remaining <= m.Keys
      invariant forall i :: 0 <= i < |rows| ==> rows[i].0 in m && m[rows[i].0] == rows[i].1
      invariant forall i, j :: 0 <= i < j < |rows| ==> rows[i].0 != rows[j].0
      invariant RowNames(rows) == m.Keys - remaining
      invariant |rows| + |remaining| == |m.Keys|
      decreases remaining
    {
      var name :| name in remaining;
      RowNamesAppend(rows, (name, m[name]));
      rows := rows + [(name, m[name])];
      remaining := remaining - {name};
    }
  }

  lemma RowNamesAppend(rows: seq<Row>, row: Row)
    ensures RowNames(rows + [row]) == RowNames(rows) + {row.0}
  {
    var grown := rows + [row];
    forall x | x in RowNames(grown) ensures x in RowNames(rows) + {row.0} {
      var i :| 0 <= i < |grown| && grown[i].0 == x;
      if i < |rows| { assert rows[i].0 == x; }
    }
    forall x | x in RowNames(rows) ensures x in RowNames(grown) {
      var i :| 0 <= i < |rows| && rows[i].0 == x;
      assert grown[i].0 == x;
    }
    assert grown[|rows|].0 == row.0;
  }

  lemma RowNamesCons(rows: seq<Row>)
    requires rows != []
    ensures RowNames(rows) == {rows[0].0} + RowNames(rows[1..])
  {
    forall x | x in RowNames(rows) ensures x in {rows[0].0} + RowNames(rows[1..]) {
      var i :| 0 <= i < |rows| && rows[i].0 == x;
      if i > 0 { assert rows[1..][i - 1].0 == x; }
    }
    forall x | x in RowNames(rows[1..]) ensures x in RowNames(rows) {
      var i :| 0 <= i < |rows[1..]| && rows[1..][i].0 == x;
      assert rows[i + 1].0 == x;
    }
  }

  /** Without its first row, `rows` lists the rest of the store. */
  lemma RowsOfTail(rows: seq<Row>, m: map<string, string>)
    requires rows != [] && IsRowsOf(rows, m)
    ensures rows[0].0 in m && m[rows[0].0] == rows[0].1
    ensures rows[0].0 !in RowNames(rows[1..])
    ensures IsRowsOf(rows[1..], m - {rows[0].0})
  {
    var name := rows[0].0;
    RowNamesCons(rows);
    forall x | x in RowNames(rows[1..]) ensures x != name {
      var i :| 0 <= i < |rows[1..]| && rows[1..][i].0 == x;
      assert rows[i + 1].0 == x;
    }
    forall i | 0 <= i < |rows[1..]| ensures rows[1..][i].0 in m - {name} {
      assert rows[1..][i] == rows[i + 1];
    }
  }

  /** The entries of `m` whose name and text are both non-empty: the ones a
      reload through `save_annotation` accepts. */
  function NonEmptyEntries(m: map<string, string>): map<string, string>
  {
    map k | k in m && k != "" && m[k] != "" :: m[k]
  }
}
