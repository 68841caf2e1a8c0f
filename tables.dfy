/** pandas DataFrames as the pipeline uses them: ordered columns, an index of row
    labels, and one row per label mapping each column to its cell. `Table` is a
    DataFrame as a value (what `df[...]`, `.copy()` and selections produce);
    `Frame` is a DataFrame object that is updated in place. */
module Tables {
  import opened Wrappers
  import opened Errors
  import Dicts

  /** A cell: a number (coordinates) or a string (image names, annotations). */
  datatype Value = Num(n: real) | Text(s: string)

  /** A row label of the index. */
  type RowId = int

  type Row = map<string, Value>

  datatype Table = Table(columns: seq<string>, index: seq<RowId>, rows: seq<Row>)

  function ColumnSet(t: Table): set<string>
  {
    set c | c in t.columns
  }

  /** One label per row, and every row holds a cell for every column. */
  predicate WellFormed(t: Table)
  {
    |t.index| == |t.rows| &&
    forall i :: 0 <= i < |t.rows| ==> t.rows[i].Keys == ColumnSet(t)
  }

  /** No row label is used twice. */
  predicate UniqueIndex(t: Table)
  {
    forall i, j :: 0 <= i < j < |t.index| ==> t.index[i] != t.index[j]
  }

  /** The names in `cols` that are not among `columns`, in the order given. */
  function AbsentColumns(columns: seq<string>, cols: seq<string>): (m: seq<string>)
    ensures forall c :: c in m <==> c in cols && c !in columns
  {
    if cols == [] then []
    else
      var n := |cols| - 1;
      var rest := AbsentColumns(columns, cols[..n]);
      assert cols == cols[..n] + [cols[n]];
      if cols[n] in columns then rest else rest + [cols[n]]
  }

  /** The positions, in ascending order, of the names in `cols` that are not
      among `columns`. */
  function AbsentAt(columns: seq<string>, cols: seq<string>): (p: seq<nat>)
    ensures forall k :: 0 <= k < |p| ==> p[k] < |cols| && cols[p[k]] !in columns
    ensures forall i :: 0 <= i < |cols| && cols[i] !in columns ==> i in p
    ensures forall k, l :: 0 <= k < l < |p| ==> p[k] < p[l]
  {
    if cols == [] then []
    else
      var n := |cols| - 1;
      var p := AbsentAt(columns, cols[..n]);
      if cols[n] in columns then p else p + [n]
  }

  /** The missing names are listed one per missing position of `cols`, in the
      order of `cols`, duplicates included. */
  lemma {:induction false} AbsentColumnsInOrder(columns: seq<string>, cols: seq<string>)
    ensures |AbsentColumns(columns, cols)| == |AbsentAt(columns, cols)|
    ensures forall k :: 0 <= k < |AbsentAt(columns, cols)| ==>
      AbsentColumns(columns, cols)[k] == cols[AbsentAt(columns, cols)[k]]
  {
    if cols != [] {
      var n := |cols| - 1;
      var init := cols[..n];
      AbsentColumnsInOrder(columns, init);
      var p, m := AbsentAt(columns, init), AbsentColumns(columns, init);
      forall k | 0 <= k < |p| ensures m[k] == cols[p[k]] {
        assert init[p[k]] == cols[p[k]];
      }
      if cols[n] !in columns {
        assert AbsentAt(columns, cols) == p + [n];
        assert AbsentColumns(columns, cols) == m + [cols[n]];
      } else {
        assert AbsentAt(columns, cols) == p;
        assert AbsentColumns(columns, cols) == m;
      }
    }
  }

  /** `df[cols]`: the named columns, in the order named, of every row. */
  function Select(t: Table, cols: seq<string>): (r: Result<Table, Error>)
    requires WellFormed(t)
    ensures r.Err? <==> exists c :: c in cols && c !in t.columns
    ensures r.Err? ==> r.error == MissingColumns(AbsentColumns(t.columns, cols))
    ensures r.Ok? ==> WellFormed(r.value) && r.value.columns == cols && r.value.index == t.index
    ensures r.Ok? ==> forall i, c :: 0 <= i < |t.rows| && c in cols ==> r.value.rows[i][c] == t.rows[i][c]
  {
    var missing := AbsentColumns(t.columns, cols);
    if missing != [] then
      assert missing[0] in cols && missing[0] !in t.columns;
      Err(MissingColumns(missing))
    else
      Ok(Table(cols, t.index, seq(|t.rows|, i requires 0 <= i < |t.rows| => map c | c in cols :: t.rows[i][c])))
  }

  /** The positions, in ascending order, of the rows among `rows` whose cell in
      `col` equals `v`: every listed row matches and every matching row is listed. */
  function PositionsWhere(rows: seq<Row>, col: string, v: Value): (p: seq<nat>)
    requires forall i :: 0 <= i < |rows| ==> col in rows[i]
    ensures forall k :: 0 <= k < |p| ==> p[k] < |rows| && rows[p[k]][col] == v
    ensures forall i :: 0 <= i < |rows| && rows[i][col] == v ==> i in p
    ensures forall k, l :: 0 <= k < l < |p| ==> p[k] < p[l]
  {
    if rows == [] then []
    else
      var n := |rows| - 1;
      var p := PositionsWhere(rows[..n], col, v);
      if rows[n][col] == v then p + [n] else p
  }

  /** The rows of `t` at positions `p`, with their labels. */
  function Pick(t: Table, p: seq<nat>): (r: Table)
    requires |t.index| == |t.rows|
    requires forall k :: 0 <= k < |p| ==> p[k] < |t.rows|
  {
    Table(t.columns, seq(|p|, k requires 0 <= k < |p| => t.index[p[k]]), seq(|p|, k requires 0 <= k < |p| => t.rows[p[k]]))
  }

  /** `df[df[col] == v]`: the matching rows, in their original order and with
      their original labels. */
  function RowsWhere(t: Table, col: string, v: Value): (r: Table)
    requires WellFormed(t) && col in t.columns
    ensures WellFormed(r) && r.columns == t.columns
    ensures var p := PositionsWhere(t.rows, col, v);
      |r.rows| == |p| && forall k :: 0 <= k < |p| ==> r.index[k] == t.index[p[k]] && r.rows[k] == t.rows[p[k]]
  {
    Pick(t, PositionsWhere(t.rows, col, v))
  }

  /** `df[c] = v` with a constant: the column is appended when new, and every
      row's cell in it becomes `v`. */
  function WithConstColumn(t: Table, c: string, v: Value): (r: Table)
    requires WellFormed(t)
    ensures WellFormed(r) && c in r.columns && r.index == t.index && |r.rows| == |t.rows|
    ensures r.columns == if c in t.columns then t.columns else t.columns + [c]
    ensures forall i :: 0 <= i < |t.rows| ==> r.rows[i][c] == v
    ensures forall i, c' :: 0 <= i < |t.rows| && c' in t.columns && c' != c ==> r.rows[i][c'] == t.rows[i][c']
  {
    var cols := if c in t.columns then t.columns else t.columns + [c];
    Table(cols, t.index, seq(|t.rows|, i requires 0 <= i < |t.rows| => t.rows[i][c := v]))
  }

  /** The ids in `ids` that are not labels in `index`, in the order given. */
  function MissingIds(index: seq<RowId>, ids: seq<RowId>): (m: seq<RowId>)
    ensures forall id :: id in m <==> id in ids && id !in index
  {
    if ids == [] then []
    else
      var rest := MissingIds(index, ids[1..]);
      assert forall id :: id in ids <==> id == ids[0] || id in ids[1..];
      if ids[0] in index then rest else [ids[0]] + rest
  }

  /** `df.loc[ids, col] = v`: every row whose label is listed takes `v` in `col`;
      a listed label missing from the index raises KeyError naming those labels. */
  function AssignRows(t: Table, ids: seq<RowId>, col: string, v: Value): (r: Result<Table, Error>)
    requires WellFormed(t) && col in t.columns
    ensures r.Err? <==> MissingIds(t.index, ids) != []
    ensures r.Err? ==> r.error == MissingRowIds(MissingIds(t.index, ids))
    ensures r.Ok? ==> WellFormed(r.value) && r.value.columns == t.columns && r.value.index == t.index
    ensures r.Ok? ==> forall i :: 0 <= i < |t.rows| && t.index[i] in ids ==> r.value.rows[i][col] == v
    ensures r.Ok? ==> forall i, c :: 0 <= i < |t.rows| && c in t.columns && (c != col || t.index[i] !in ids) ==>
      r.value.rows[i][c] == t.rows[i][c]
  {
    var missing := MissingIds(t.index, ids);
    if missing != [] then Err(MissingRowIds(missing))
    else Ok(Table(t.columns, t.index,
                  seq(|t.rows|, i requires 0 <= i < |t.rows| => if t.index[i] in ids then t.rows[i][col := v] else t.rows[i])))
  }

  /** `Series.replace(mapping)` on one cell: a value equal to a mapping key is
      replaced by the mapped value, any other value passes through. */
  function ReplaceValue(mapping: seq<(Value, Value)>, v: Value): (r: Value)
    ensures v in Dicts.Keys(mapping) ==> Dicts.Lookup(mapping, v) == Some(r)
    ensures v !in Dicts.Keys(mapping) ==> r == v
  {
    Dicts.LookupFound(mapping, v);
    Dicts.GetOr(mapping, v, v)
  }

  /** `df[col] = df[col].replace(mapping)` when `col` exists; the table is left
      as it is otherwise. */
  function ReplaceInColumn(t: Table, col: string, mapping: seq<(Value, Value)>): (r: Table)
    requires WellFormed(t)
    ensures WellFormed(r) && r.columns == t.columns && r.index == t.index
  {
    if col !in t.columns then t
    else Table(t.columns, t.index,
               seq(|t.rows|, i requires 0 <= i < |t.rows| => t.rows[i][col := ReplaceValue(mapping, t.rows[i][col])]))
  }

  /** Replacing leaves an absent column's table as it is; otherwise it keeps
      the columns, the labels and every other cell, and a cell of `col` equal to
      a mapping key takes that key's value while any other passes through. */
  lemma ReplaceInColumnCells(t: Table, col: string, mapping: seq<(Value, Value)>)
    requires WellFormed(t)
    ensures col !in t.columns ==> ReplaceInColumn(t, col, mapping) == t
    ensures var r := ReplaceInColumn(t, col, mapping);
      r.columns == t.columns && r.index == t.index &&
      forall i, c :: 0 <= i < |t.rows| && c in t.columns && c != col ==> r.rows[i][c] == t.rows[i][c]
    ensures var r := ReplaceInColumn(t, col, mapping);
      forall i :: 0 <= i < |t.rows| && col in t.columns && t.rows[i][col] !in Dicts.Keys(mapping) ==>
        r.rows[i][col] == t.rows[i][col]
    ensures var r := ReplaceInColumn(t, col, mapping);
      forall i :: 0 <= i < |t.rows| && col in t.columns && t.rows[i][col] in Dicts.Keys(mapping) ==>
        Dicts.Lookup(mapping, t.rows[i][col]) == Some(r.rows[i][col])
  {
    forall v: Value {
      Dicts.LookupFound(mapping, v);
    }
  }

  /** A DataFrame object: its columns, index and rows are replaced by methods
      that model pandas' in-place updates. */
  class Frame {
    var columns: seq<string>
    var index: seq<RowId>
    var rows: seq<Row>

    /** The DataFrame's current contents as a value. */
    function Snapshot(): Table
      reads this
    {
      Table(columns, index, rows)
    }

    predicate Valid()
      reads this
    {
      WellFormed(Snapshot())
    }

    constructor (t: Table)
      requires WellFormed(t)
      ensures Valid() && Snapshot() == t
    {
      columns, index, rows := t.columns, t.index, t.rows;
    }

    /** `df[c] = v` with a constant value. */
    method SetConstColumn(c: string, v: Value)
      requires Valid()
      modifies this
      ensures Valid() && Snapshot() == WithConstColumn(old(Snapshot()), c, v)
    {
      var t := WithConstColumn(Snapshot(), c, v);
      columns, index, rows := t.columns, t.index, t.rows;
    }

    /** `df.loc[ids, col] = v`: on KeyError the frame is left as it was. */
    method LocAssign(ids: seq<RowId>, col: string, v: Value) returns (failure: Option<Error>)
      requires Valid() && col in columns
      modifies this
      ensures Valid()
      ensures AssignRows(old(Snapshot()), ids, col, v).Err? ==>
        failure == Some(AssignRows(old(Snapshot()), ids, col, v).error) && Snapshot() == old(Snapshot())
      ensures AssignRows(old(Snapshot()), ids, col, v).Ok? ==>
        failure == None && Snapshot() == AssignRows(old(Snapshot()), ids, col, v).value
    {
      match AssignRows(Snapshot(), ids, col, v)
      case Err(e) =>
        failure := Some(e);
      case Ok(t) =>
        columns, index, rows := t.columns, t.index, t.rows;
        failure := None;
    }

    /** `df[col] = df[col].replace(mapping)` when the column exists. */
    method ReplaceColumnValues(col: string, mapping: seq<(Value, Value)>)
      requires Valid()
      modifies this
      ensures Valid() && Snapshot() == ReplaceInColumn(old(Snapshot()), col, mapping)
    {
      var t := ReplaceInColumn(Snapshot(), col, mapping);
      columns, index, rows := t.columns, t.index, t.rows;
    }
  }
}
