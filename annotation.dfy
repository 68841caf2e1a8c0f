/** `annotate_metadata`: writes each region's label into an annotation column of
    a metadata DataFrame, for the rows the region contains. */
module Annotation {
  import opened Wrappers
  import opened Errors
  import opened Tables

  /** The value every row gets when the annotation column is created. */
  const NotAssigned: string := "not_assigned"

  /** The column is created, holding the sentinel in every row, only when absent. */
  function WithSentinel(t: Table, col: string): (r: Table)
    requires WellFormed(t)
    ensures WellFormed(r) && col in r.columns && r.index == t.index
  {
    if col in t.columns then t else WithConstColumn(t, col, Text(NotAssigned))
  }

  /** The frame after some `.loc` assignments, and the KeyError that stopped them. */
  datatype Applied = Applied(table: Table, failure: Option<Error>)

  /** The loop `for label, indices in groups: df.loc[indices, col] = label`: the
      groups in order, stopping at the first that names a row label the index
      does not have. */
  function ApplyGroups(t: Table, groups: seq<(string, seq<RowId>)>, col: string): (a: Applied)
    requires WellFormed(t) && col in t.columns
    ensures WellFormed(a.table) && a.table.columns == t.columns && a.table.index == t.index
  {
    if groups == [] then Applied(t, None)
    else
      var n := |groups| - 1;
      var prev := ApplyGroups(t, groups[..n], col);
      if prev.failure.Some? then prev
      else
        match AssignRows(prev.table, groups[n].1, col, Text(groups[n].0))
        case Err(e) => Applied(prev.table, Some(e))
        case Ok(next) => Applied(next, None)
  }

  /** `annotate_metadata(groups, df, col)` on the frame's contents. */
  function Annotated(t: Table, groups: seq<(string, seq<RowId>)>, col: string): (a: Applied)
    requires WellFormed(t)
    ensures WellFormed(a.table) && a.table.index == t.index
    ensures a.table.columns == if col in t.columns then t.columns else t.columns + [col]
  {
    ApplyGroups(WithSentinel(t, col), groups, col)
  }

  /** The label of the last group listing `id`, which is the one written last. */
  function LastLabel(groups: seq<(string, seq<RowId>)>, id: RowId): Option<string>
  {
    if groups == [] then None
    else
      var n := |groups| - 1;
      if id in groups[n].1 then Some(groups[n].0) else LastLabel(groups[..n], id)
  }

  /** The annotation a row labelled `id` ends up with, given its value before. */
  function Relabelled(groups: seq<(string, seq<RowId>)>, id: RowId, prior: Value): Value
  {
    match LastLabel(groups, id)
    case Some(l) => Text(l)
    case None => prior
  }

  /** A row keeps its value exactly when no group lists it; otherwise it takes
      the label of a group that lists it and that no later group overrides. */
  lemma {:induction false} LastLabelWhen(groups: seq<(string, seq<RowId>)>, id: RowId)
    ensures LastLabel(groups, id).None? <==> forall g :: 0 <= g < |groups| ==> id !in groups[g].1
    ensures LastLabel(groups, id).Some? ==>
      exists g :: 0 <= g < |groups| && id in groups[g].1 && groups[g].0 == LastLabel(groups, id).value &&
        forall h :: g < h < |groups| ==> id !in groups[h].1
  {
    if groups != [] {
      var n := |groups| - 1;
      LastLabelWhen(groups[..n], id);
      if id in groups[n].1 {
        assert id in groups[n].1 && groups[n].0 == LastLabel(groups, id).value;
      } else if LastLabel(groups[..n], id).Some? {
        var g :| 0 <= g < n && id in groups[..n][g].1 && groups[..n][g].0 == LastLabel(groups[..n], id).value &&
          forall h :: g < h < n ==> id !in groups[..n][h].1;
        assert groups[g] == groups[..n][g];
        forall h | g < h < |groups| ensures id !in groups[h].1 {
          if h < n {
            assert groups[h] == groups[..n][h];
          }
        }
      } else {
        forall g | 0 <= g < n ensures id !in groups[g].1 {
          assert groups[g] == groups[..n][g];
        }
      }
    }
  }

  /** Every group labels only rows that exist. */
  predicate AllListedExist(groups: seq<(string, seq<RowId>)>, index: seq<RowId>)
  {
    forall g, id :: 0 <= g < |groups| && id in groups[g].1 ==> id in index
  }

  /** Once a group has failed, later groups are not applied. */
  lemma {:induction false} FailureSticks(t: Table, groups: seq<(string, seq<RowId>)>, col: string, k: nat, j: nat)
    requires WellFormed(t) && col in t.columns
    requires k <= j <= |groups|
    requires ApplyGroups(t, groups[..k], col).failure.Some?
    ensures ApplyGroups(t, groups[..j], col) == ApplyGroups(t, groups[..k], col)
    decreases j
  {
    if j > k {
      FailureSticks(t, groups, col, k, j - 1);
      assert groups[..j][..j - 1] == groups[..j - 1];
    }
  }

  /** The assignments stop exactly when some group lists a label the index lacks. */
  lemma {:induction false} ApplyGroupsFails(t: Table, groups: seq<(string, seq<RowId>)>, col: string)
    requires WellFormed(t) && col in t.columns
    ensures ApplyGroups(t, groups, col).failure.None? <==> AllListedExist(groups, t.index)
  {
    if groups != [] {
      var n := |groups| - 1;
      ApplyGroupsFails(t, groups[..n], col);
      var prev := ApplyGroups(t, groups[..n], col);
      if prev.failure.Some? {
        assert ApplyGroups(t, groups, col) == prev;
        var g, id :| 0 <= g < n && id in groups[..n][g].1 && id !in t.index;
        assert groups[g] == groups[..n][g];
      } else {
        var m := MissingIds(t.index, groups[n].1);
        var step := AssignRows(prev.table, groups[n].1, col, Text(groups[n].0));
        if m != [] {
          assert step.Err?;
          assert ApplyGroups(t, groups, col).failure.Some?;
          var id := m[0];
          assert 0 <= n < |groups| && id in groups[n].1 && id !in t.index;
        } else {
          assert step.Ok?;
          assert ApplyGroups(t, groups, col).failure.None?;
          forall g, id | 0 <= g < |groups| && id in groups[g].1 ensures id in t.index {
            if g < n {
              assert groups[g] == groups[..n][g];
            }
          }
        }
      }
    }
  }

  /** When the group at `g` is the first to list a missing label, the result is
      the KeyError naming that group's missing labels, and the frame holds the
      assignments of the groups before it. */
  lemma StopsAtFirstMissing(t: Table, groups: seq<(string, seq<RowId>)>, col: string, g: nat)
    requires WellFormed(t) && col in t.columns
    requires g < |groups| && MissingIds(t.index, groups[g].1) != []
    requires AllListedExist(groups[..g], t.index)
    ensures ApplyGroups(t, groups, col) ==
      Applied(ApplyGroups(t, groups[..g], col).table, Some(MissingRowIds(MissingIds(t.index, groups[g].1))))
  {
    ApplyGroupsFails(t, groups[..g], col);
    var prev := ApplyGroups(t, groups[..g], col);
    var head := groups[..g + 1];
    assert head[..g] == groups[..g];
    assert ApplyGroups(t, head, col) == Applied(prev.table, Some(MissingRowIds(MissingIds(t.index, groups[g].1))));
    FailureSticks(t, groups, col, g + 1, |groups|);
    assert groups[..|groups|] == groups;
  }

  /** Without a failure, each row keeps every cell but the annotation, which is
      the label of the last group listing it, or what it held before. */
  lemma {:induction false} ApplyGroupsCells(t: Table, groups: seq<(string, seq<RowId>)>, col: string)
    requires WellFormed(t) && col in t.columns
    requires ApplyGroups(t, groups, col).failure.None?
    ensures forall i :: 0 <= i < |t.rows| ==>
      ApplyGroups(t, groups, col).table.rows[i] == t.rows[i][col := Relabelled(groups, t.index[i], t.rows[i][col])]
  {
    if groups == [] {
      forall i | 0 <= i < |t.rows| ensures t.rows[i][col := t.rows[i][col]] == t.rows[i] { }
    } else {
      var n := |groups| - 1;
      var prev := ApplyGroups(t, groups[..n], col);
      assert prev.failure.None?;
      ApplyGroupsCells(t, groups[..n], col);
      forall i | 0 <= i < |t.rows|
        ensures ApplyGroups(t, groups, col).table.rows[i] == t.rows[i][col := Relabelled(groups, t.index[i], t.rows[i][col])]
      {
        if t.index[i] !in groups[n].1 {
          assert LastLabel(groups, t.index[i]) == LastLabel(groups[..n], t.index[i]);
        }
      }
    }
  }

  /** Whether or not a group fails, only the annotation cells change. */
  lemma {:induction false} ApplyGroupsOtherCells(t: Table, groups: seq<(string, seq<RowId>)>, col: string)
    requires WellFormed(t) && col in t.columns
    ensures forall i, c :: 0 <= i < |t.rows| && c in t.columns && c != col ==>
      ApplyGroups(t, groups, col).table.rows[i][c] == t.rows[i][c]
  {
    if groups != [] {
      ApplyGroupsOtherCells(t, groups[..|groups| - 1], col);
    }
  }

  /** `annotate_metadata` changes only the annotation cells, on success and on
      a KeyError alike. */
  lemma AnnotatedOtherCells(t: Table, groups: seq<(string, seq<RowId>)>, col: string)
    requires WellFormed(t)
    ensures forall i, c :: 0 <= i < |t.rows| && c in t.columns && c != col ==>
      Annotated(t, groups, col).table.rows[i][c] == t.rows[i][c]
  {
    ApplyGroupsOtherCells(WithSentinel(t, col), groups, col);
  }

  /** What a row's annotation was before the groups are applied. */
  function Prior(t: Table, i: nat, col: string): Value
    requires WellFormed(t) && i < |t.rows|
  {
    if col in t.columns then t.rows[i][col] else Text(NotAssigned)
  }

  /** `annotate_metadata` fails exactly when a group lists a label not in the
      index; the error names the missing labels of the first such group, and the
      frame keeps the annotation column and the assignments made before it. */
  lemma AnnotatedFails(t: Table, groups: seq<(string, seq<RowId>)>, col: string)
    requires WellFormed(t)
    ensures Annotated(t, groups, col).failure.None? <==> AllListedExist(groups, t.index)
  {
    ApplyGroupsFails(WithSentinel(t, col), groups, col);
  }

  /** On success every row keeps its other cells, and its annotation is the label
      of the last group listing it, else its previous annotation, else the
      sentinel. */
  lemma AnnotatedCells(t: Table, groups: seq<(string, seq<RowId>)>, col: string)
    requires WellFormed(t) && Annotated(t, groups, col).failure.None?
    ensures forall i :: 0 <= i < |t.rows| ==>
      Annotated(t, groups, col).table.rows[i] == t.rows[i][col := Relabelled(groups, t.index[i], Prior(t, i, col))]
  {
    var s := WithSentinel(t, col);
    ApplyGroupsCells(s, groups, col);
    forall i | 0 <= i < |t.rows|
      ensures s.rows[i][col := Relabelled(groups, t.index[i], s.rows[i][col])] ==
        t.rows[i][col := Relabelled(groups, t.index[i], Prior(t, i, col))]
    {
      if col in t.columns {
        assert s == t;
      }
    }
  }

  /** Applying the same groups again to a frame they were applied to
      without failure changes nothing. */
  lemma ApplyGroupsIdempotent(t: Table, groups: seq<(string, seq<RowId>)>, col: string)
    requires WellFormed(t) && col in t.columns && ApplyGroups(t, groups, col).failure.None?
    ensures ApplyGroups(ApplyGroups(t, groups, col).table, groups, col) == ApplyGroups(t, groups, col)
  {
    var once := ApplyGroups(t, groups, col).table;
    ApplyGroupsFails(t, groups, col);
    ApplyGroupsFails(once, groups, col);
    ApplyGroupsCells(t, groups, col);
    ApplyGroupsCells(once, groups, col);
    var twice := ApplyGroups(once, groups, col).table;
    forall i | 0 <= i < |t.rows| ensures twice.rows[i] == once.rows[i] {
      if LastLabel(groups, t.index[i]).None? {
        assert once.rows[i][col := once.rows[i][col]] == once.rows[i];
      }
    }
    assert twice.rows == once.rows;
  }

  /** When some group lists a label the index lacks, there is a first such
      group. */
  lemma {:induction false} FirstMissingGroup(groups: seq<(string, seq<RowId>)>, index: seq<RowId>) returns (g: nat)
    requires !AllListedExist(groups, index)
    ensures g < |groups| && MissingIds(index, groups[g].1) != [] && AllListedExist(groups[..g], index)
  {
    var n := |groups| - 1;
    if AllListedExist(groups[..n], index) {
      forall h, id | 0 <= h < n && id in groups[h].1 ensures id in index {
        assert groups[h] == groups[..n][h];
      }
      var id :| id in groups[n].1 && id !in index;
      assert id in MissingIds(index, groups[n].1);
      g := n;
    } else {
      g := FirstMissingGroup(groups[..n], index);
      assert groups[..n][..g] == groups[..g];
    }
  }

  /** Annotating an annotated frame with the same groups changes nothing: on
      success the frame is as it was, and on a KeyError the groups before the
      failing one rewrite what they wrote and the same error is raised. */
  lemma AnnotateIdempotent(t: Table, groups: seq<(string, seq<RowId>)>, col: string)
    requires WellFormed(t)
    ensures Annotated(Annotated(t, groups, col).table, groups, col) == Annotated(t, groups, col)
  {
    var s := WithSentinel(t, col);
    var once := Annotated(t, groups, col).table;
    assert WithSentinel(once, col) == once;
    if Annotated(t, groups, col).failure.None? {
      ApplyGroupsIdempotent(s, groups, col);
    } else {
      ApplyGroupsFails(s, groups, col);
      var g := FirstMissingGroup(groups, s.index);
      StopsAtFirstMissing(s, groups, col, g);
      ApplyGroupsFails(s, groups[..g], col);
      ApplyGroupsIdempotent(s, groups[..g], col);
      StopsAtFirstMissing(once, groups, col, g);
    }
  }

  /** `annotate_metadata(cell_names_dict, metadata_df, ann_col_name)`: the frame
      is updated in place and returned; a KeyError from `.loc` leaves it with the
      assignments made so far. */
  method AnnotateMetadata(cellNames: seq<(string, seq<RowId>)>, df: Frame, annCol: string) returns (r: Result<Frame, Error>)
    requires df.Valid()
    modifies df
    ensures df.Valid() && df.Snapshot() == Annotated(old(df.Snapshot()), cellNames, annCol).table
    ensures Annotated(old(df.Snapshot()), cellNames, annCol).failure.None? ==> r == Ok(df)
    ensures Annotated(old(df.Snapshot()), cellNames, annCol).failure.Some? ==>
      r == Err(Annotated(old(df.Snapshot()), cellNames, annCol).failure.value)
  {
    if annCol !in df.columns {
      df.SetConstColumn(annCol, Text(NotAssigned));
    }
    ghost var start := df.Snapshot();
    assert start == WithSentinel(old(df.Snapshot()), annCol);
    for k := 0 to |cellNames|
      invariant df.Valid() && annCol in df.columns
      invariant ApplyGroups(start, cellNames[..k], annCol) == Applied(df.Snapshot(), None)
    {
      var (lbl, indices) := cellNames[k];
      assert cellNames[..k + 1][..k] == cellNames[..k];
      var failure := df.LocAssign(indices, annCol, Text(lbl));
      if failure.Some? {
        FailureSticks(start, cellNames, annCol, k + 1, |cellNames|);
        assert cellNames[..|cellNames|] == cellNames;
        return Err(failure.value);
      }
    }
    assert cellNames[..|cellNames|] == cellNames;
    return Ok(df);
  }
}
