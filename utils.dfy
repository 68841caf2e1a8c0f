/** The helpers of the `core` package: selecting one image's rows and their
    extent, renaming dictionary keys, and choosing what an export writes. */
module Utils {
  import opened Wrappers
  import opened Errors
  import opened Tables
  import opened Dicts

  /** `metadata_df[metadata_df[images_col] == image_name][[x_col, y_col]]`: the
      image column must exist for the comparison and both coordinate columns for
      the selection, each missing column raising KeyError. */
  function GetImageCoords(t: Table, imagesCol: string, imageName: Value, xCol: string, yCol: string): (r: Result<Table, Error>)
    requires WellFormed(t)
    ensures imagesCol !in t.columns ==> r == Err(MissingColumns([imagesCol]))
    ensures imagesCol in t.columns ==> (r.Err? <==> xCol !in t.columns || yCol !in t.columns)
    ensures imagesCol in t.columns && r.Err? ==> r == Err(MissingColumns(AbsentColumns(t.columns, [xCol, yCol])))
  {
    if imagesCol !in t.columns then Err(MissingColumns([imagesCol]))
    else Select(RowsWhere(t, imagesCol, imageName), [xCol, yCol])
  }

  /** The selection has the x and y columns only, and its rows are exactly the
      rows of the image, in their order, with their labels and coordinates. */
  lemma ImageCoordsRows(t: Table, imagesCol: string, imageName: Value, xCol: string, yCol: string)
    requires WellFormed(t) && GetImageCoords(t, imagesCol, imageName, xCol, yCol).Ok?
    ensures var c := GetImageCoords(t, imagesCol, imageName, xCol, yCol).value;
      var p := PositionsWhere(t.rows, imagesCol, imageName);
      WellFormed(c) && c.columns == [xCol, yCol] && |c.rows| == |p| &&
      forall k :: 0 <= k < |p| ==>
        t.rows[p[k]][imagesCol] == imageName && c.index[k] == t.index[p[k]] &&
        c.rows[k][xCol] == t.rows[p[k]][xCol] && c.rows[k][yCol] == t.rows[p[k]][yCol]
  {
  }

  /** Every cell of the column is a number. */
  predicate NumericColumn(t: Table, col: string)
  {
    forall i :: 0 <= i < |t.rows| && col in t.rows[i] ==> t.rows[i][col].Num?
  }

  /** The numbers of a numeric column, in row order. */
  function NumbersOf(t: Table, col: string): (s: seq<real>)
    requires WellFormed(t) && col in t.columns && NumericColumn(t, col)
    ensures |s| == |t.rows|
  {
    seq(|t.rows|, i requires 0 <= i < |t.rows| => t.rows[i][col].n)
  }

  /** `Series.min()` of a non-empty series: a lower bound that is attained. */
  function MinOf(s: seq<real>): (m: real)
    requires |s| > 0
    ensures forall i :: 0 <= i < |s| ==> m <= s[i]
    ensures exists i :: 0 <= i < |s| && s[i] == m
  {
    if |s| == 1 then s[0]
    else
      var n := |s| - 1;
      var rest := MinOf(s[..n]);
      assert forall i :: 0 <= i < n ==> s[..n][i] == s[i];
      if s[n] < rest then s[n] else rest
  }

  /** `Series.max()` of a non-empty series: an upper bound that is attained. */
  function MaxOf(s: seq<real>): (m: real)
    requires |s| > 0
    ensures forall i :: 0 <= i < |s| ==> s[i] <= m
    ensures exists i :: 0 <= i < |s| && s[i] == m
  {
    if |s| == 1 then s[0]
    else
      var n := |s| - 1;
      var rest := MaxOf(s[..n]);
      assert forall i :: 0 <= i < n ==> s[..n][i] == s[i];
      if s[n] > rest then s[n] else rest
  }

  /** The dictionary `get_image_dims` returns. */
  datatype ImageDims = ImageDims(xMin: real, yMin: real, xMax: real, yMax: real)

  /** The smallest and largest x and y of a non-empty coordinate table. */
  function DimsOf(c: Table, xCol: string, yCol: string): (d: ImageDims)
    requires WellFormed(c) && xCol in c.columns && yCol in c.columns && |c.rows| > 0
    requires NumericColumn(c, xCol) && NumericColumn(c, yCol)
    ensures d.xMin <= d.xMax && d.yMin <= d.yMax
  {
    var xs := NumbersOf(c, xCol);
    var ys := NumbersOf(c, yCol);
    ImageDims(MinOf(xs), MinOf(ys), MaxOf(xs), MaxOf(ys))
  }

  /** The minimum and maximum of a numeric column bound its every cell and are
      cells of it. */
  lemma ColumnBound(c: Table, col: string)
    requires WellFormed(c) && col in c.columns && |c.rows| > 0 && NumericColumn(c, col)
    ensures forall k :: 0 <= k < |c.rows| ==> MinOf(NumbersOf(c, col)) <= c.rows[k][col].n <= MaxOf(NumbersOf(c, col))
    ensures exists k :: 0 <= k < |c.rows| && c.rows[k][col].n == MinOf(NumbersOf(c, col))
    ensures exists k :: 0 <= k < |c.rows| && c.rows[k][col].n == MaxOf(NumbersOf(c, col))
  {
    var s := NumbersOf(c, col);
    assert forall k :: 0 <= k < |c.rows| ==> s[k] == c.rows[k][col].n;
    var a :| 0 <= a < |s| && s[a] == MinOf(s);
    var b :| 0 <= b < |s| && s[b] == MaxOf(s);
  }

  /** Every point lies within the dims, and each of the four bounds is the
      coordinate of one of the points. */
  lemma DimsBound(c: Table, xCol: string, yCol: string)
    requires WellFormed(c) && xCol in c.columns && yCol in c.columns && |c.rows| > 0
    requires NumericColumn(c, xCol) && NumericColumn(c, yCol)
    ensures var d := DimsOf(c, xCol, yCol);
      forall k :: 0 <= k < |c.rows| ==>
        d.xMin <= c.rows[k][xCol].n <= d.xMax && d.yMin <= c.rows[k][yCol].n <= d.yMax
    ensures var d := DimsOf(c, xCol, yCol);
      (exists k :: 0 <= k < |c.rows| && c.rows[k][xCol].n == d.xMin) &&
      (exists k :: 0 <= k < |c.rows| && c.rows[k][xCol].n == d.xMax) &&
      (exists k :: 0 <= k < |c.rows| && c.rows[k][yCol].n == d.yMin) &&
      (exists k :: 0 <= k < |c.rows| && c.rows[k][yCol].n == d.yMax)
  {
    ColumnBound(c, xCol);
    ColumnBound(c, yCol);
  }

  /** `get_image_dims`: the extent of the image's points. With no row for the
      image, `image_dims_df` is never bound and returning it raises
      UnboundLocalError; missing columns raise KeyError as in `GetImageCoords`. */
  function GetImageDims(t: Table, imagesCol: string, imageName: Value, xCol: string, yCol: string): (r: Result<ImageDims, Error>)
    requires WellFormed(t) && NumericColumn(t, xCol) && NumericColumn(t, yCol)
    ensures GetImageCoords(t, imagesCol, imageName, xCol, yCol).Err? ==>
      r == Err(GetImageCoords(t, imagesCol, imageName, xCol, yCol).error)
    ensures GetImageCoords(t, imagesCol, imageName, xCol, yCol).Ok? ==>
      (r == Err(NoRowsForImage) <==> GetImageCoords(t, imagesCol, imageName, xCol, yCol).value.rows == [])
  {
    match GetImageCoords(t, imagesCol, imageName, xCol, yCol)
    case Err(e) => Err(e)
    case Ok(c) =>
      assert NumericColumn(c, xCol) && NumericColumn(c, yCol) by {
        SelectionNumeric(t, imagesCol, imageName, xCol, yCol);
      }
      if c.rows == [] then Err(NoRowsForImage) else Ok(DimsOf(c, xCol, yCol))
  }

  /** The selection of an image's coordinates keeps the coordinates numeric. */
  lemma SelectionNumeric(t: Table, imagesCol: string, imageName: Value, xCol: string, yCol: string)
    requires WellFormed(t) && NumericColumn(t, xCol) && NumericColumn(t, yCol)
    requires GetImageCoords(t, imagesCol, imageName, xCol, yCol).Ok?
    ensures var c := GetImageCoords(t, imagesCol, imageName, xCol, yCol).value;
      NumericColumn(c, xCol) && NumericColumn(c, yCol)
  {
    ImageCoordsRows(t, imagesCol, imageName, xCol, yCol);
  }

  /** On success the dims are those of the image's selection, whose rows are
      the image's rows (`ImageCoordsRows`), so `DimsBound` describes them. */
  lemma ImageDimsOfSelection(t: Table, imagesCol: string, imageName: Value, xCol: string, yCol: string)
    requires WellFormed(t) && NumericColumn(t, xCol) && NumericColumn(t, yCol)
    requires GetImageDims(t, imagesCol, imageName, xCol, yCol).Ok?
    ensures GetImageCoords(t, imagesCol, imageName, xCol, yCol).Ok?
    ensures var c := GetImageCoords(t, imagesCol, imageName, xCol, yCol).value;
      WellFormed(c) && c.columns == [xCol, yCol] && |c.rows| > 0 && NumericColumn(c, xCol) && NumericColumn(c, yCol) &&
      GetImageDims(t, imagesCol, imageName, xCol, yCol).value == DimsOf(c, xCol, yCol)
  {
    ImageCoordsRows(t, imagesCol, imageName, xCol, yCol);
    SelectionNumeric(t, imagesCol, imageName, xCol, yCol);
    var c := GetImageCoords(t, imagesCol, imageName, xCol, yCol).value;
    assert GetImageDims(t, imagesCol, imageName, xCol, yCol) == Ok(DimsOf(c, xCol, yCol));
  }

  /** The keys of `mapping`, in its order, that `original` does not have. */
  function AbsentKeys<V>(original: seq<(string, V)>, mapping: seq<(string, string)>): (m: seq<string>)
    ensures forall k :: k in m <==> k in Keys(mapping) && k !in Keys(original)
  {
    AbsentColumns(Keys(original), Keys(mapping))
  }

  /** The missing keys are the keys of the entries of `mapping` whose key
      `original` lacks, one per entry, in mapping order. */
  lemma AbsentKeysInOrder<V>(original: seq<(string, V)>, mapping: seq<(string, string)>)
    ensures var m, p := AbsentKeys(original, mapping), AbsentAt(Keys(original), Keys(mapping));
      |m| == |p| && forall k :: 0 <= k < |p| ==> p[k] < |mapping| && m[k] == mapping[p[k]].0
    ensures var p := AbsentAt(Keys(original), Keys(mapping));
      (forall k, l :: 0 <= k < l < |p| ==> p[k] < p[l]) &&
      forall i :: 0 <= i < |mapping| && mapping[i].0 !in Keys(original) ==> i in p
  {
    AbsentColumnsInOrder(Keys(original), Keys(mapping));
  }

  /** The key `k` is stored under after renaming. */
  function NewKey(mapping: seq<(string, string)>, k: string): (n: string)
    ensures k in Keys(mapping) ==> Lookup(mapping, k) == Some(n)
    ensures k !in Keys(mapping) ==> n == k
  {
    LookupFound(mapping, k);
    GetOr(mapping, k, k)
  }

  /** The dictionary `rename_keys` builds: the entries of `original` in order,
      each stored under its new key, a later entry replacing the value of an
      earlier one with the same new key. */
  function Renamed<V>(original: seq<(string, V)>, mapping: seq<(string, string)>): (r: seq<(string, V)>)
    ensures |r| <= |original|
    ensures forall k :: k in Keys(r) <==> k in NewKeys(original, mapping)
  {
    if original == [] then []
    else
      var n := |original| - 1;
      assert NewKeys(original, mapping) == NewKeys(original[..n], mapping) + [NewKey(mapping, original[n].0)];
      Put(Renamed(original[..n], mapping), NewKey(mapping, original[n].0), original[n].1)
  }

  /** The value stored under `k` after renaming: that of the last entry of
      `original` renamed to `k`. */
  function LastRenamedTo<V>(original: seq<(string, V)>, mapping: seq<(string, string)>, k: string): Option<V>
  {
    if original == [] then None
    else
      var n := |original| - 1;
      if NewKey(mapping, original[n].0) == k then Some(original[n].1) else LastRenamedTo(original[..n], mapping, k)
  }

  /** The new key of every entry, in the order of `original`. */
  function NewKeys<V>(original: seq<(string, V)>, mapping: seq<(string, string)>): seq<string>
  {
    seq(|original|, i requires 0 <= i < |original| => NewKey(mapping, original[i].0))
  }

  /** The distinct elements of `ks`, each where it first occurs. */
  function FirstOccurrences(ks: seq<string>): (r: seq<string>)
    ensures forall k :: k in r <==> k in ks
  {
    if ks == [] then []
    else
      var n := |ks| - 1;
      assert ks == ks[..n] + [ks[n]];
      var r := FirstOccurrences(ks[..n]);
      if ks[n] in ks[..n] then r else r + [ks[n]]
  }

  /** The renamed dictionary has distinct keys, and under each key the value of
      the last entry renamed to it; its keys are the new keys in the order they
      first occur, so a key several entries are renamed to keeps the place of
      the first of them. */
  lemma {:induction false} RenamedLookup<V>(original: seq<(string, V)>, mapping: seq<(string, string)>)
    ensures DistinctKeys(Renamed(original, mapping))
    ensures forall k :: Lookup(Renamed(original, mapping), k) == LastRenamedTo(original, mapping, k)
    ensures Keys(Renamed(original, mapping)) == FirstOccurrences(NewKeys(original, mapping))
  {
    if original != [] {
      var n := |original| - 1;
      var prev := Renamed(original[..n], mapping);
      RenamedLookup(original[..n], mapping);
      PutDistinct(prev, NewKey(mapping, original[n].0), original[n].1);
      forall k ensures Lookup(Renamed(original, mapping), k) == LastRenamedTo(original, mapping, k) {
        PutLookup(prev, NewKey(mapping, original[n].0), original[n].1, k);
      }
    }
    RenamedKeyOrder(original, mapping);
  }

  lemma {:induction false} RenamedKeyOrder<V>(original: seq<(string, V)>, mapping: seq<(string, string)>)
    ensures Keys(Renamed(original, mapping)) == FirstOccurrences(NewKeys(original, mapping))
  {
    if original != [] {
      var n := |original| - 1;
      var prev, k, ks := Renamed(original[..n], mapping), NewKey(mapping, original[n].0), NewKeys(original, mapping);
      RenamedKeyOrder(original[..n], mapping);
      assert ks[..n] == NewKeys(original[..n], mapping) && ks[n] == k;
      assert Keys(Renamed(original, mapping)) == Keys(Put(prev, k, original[n].1));
      assert k in Keys(prev) <==> k in ks[..n];
    }
  }

  /** No two entries of `original` are renamed to the same key. */
  predicate NoCollision<V>(original: seq<(string, V)>, mapping: seq<(string, string)>)
  {
    forall i, j :: 0 <= i < j < |original| ==> NewKey(mapping, original[i].0) != NewKey(mapping, original[j].0)
  }

  /** When no two entries are renamed to the same key, renaming keeps every
      entry, in place, with its value. */
  lemma {:induction false} RenamedWithoutCollision<V>(original: seq<(string, V)>, mapping: seq<(string, string)>)
    requires NoCollision(original, mapping)
    ensures |Renamed(original, mapping)| == |original|
    ensures forall i :: 0 <= i < |original| ==> Renamed(original, mapping)[i] == (NewKey(mapping, original[i].0), original[i].1)
  {
    if original != [] {
      var n := |original| - 1;
      var init := original[..n];
      NoCollisionPrefix(original, mapping);
      RenamedWithoutCollision(init, mapping);
      var prev := Renamed(init, mapping);
      PrefixEntries(original, mapping, prev);
      LastKeyFresh(original, mapping);
      RenamedSnocFresh(original, mapping);
      SnocEntries(original, mapping, prev);
    }
  }

  /** Entries of the prefix renamed in place are those of the whole. */
  lemma PrefixEntries<V>(original: seq<(string, V)>, mapping: seq<(string, string)>, prev: seq<(string, V)>)
    requires original != []
    requires var init := original[..|original| - 1];
      |prev| == |init| && forall i :: 0 <= i < |init| ==> prev[i] == (NewKey(mapping, init[i].0), init[i].1)
    ensures forall i :: 0 <= i < |prev| ==> prev[i] == (NewKey(mapping, original[i].0), original[i].1)
  {
    var init := original[..|original| - 1];
    forall i | 0 <= i < |prev| ensures prev[i] == (NewKey(mapping, original[i].0), original[i].1) {
      assert init[i] == original[i];
    }
  }

  /** Appending the last entry, renamed, to the renamed prefix renames every
      entry in place. */
  lemma SnocEntries<V>(original: seq<(string, V)>, mapping: seq<(string, string)>, prev: seq<(string, V)>)
    requires original != [] && |prev| == |original| - 1
    requires forall i :: 0 <= i < |prev| ==> prev[i] == (NewKey(mapping, original[i].0), original[i].1)
    ensures var r := prev + [(NewKey(mapping, original[|prev|].0), original[|prev|].1)];
      |r| == |original| && forall i :: 0 <= i < |original| ==> r[i] == (NewKey(mapping, original[i].0), original[i].1)
  {
  }

  lemma NoCollisionPrefix<V>(original: seq<(string, V)>, mapping: seq<(string, string)>)
    requires original != [] && NoCollision(original, mapping)
    ensures NoCollision(original[..|original| - 1], mapping)
  {
    var init := original[..|original| - 1];
    assert forall i :: 0 <= i < |init| ==> init[i] == original[i];
  }

  /** Without collisions, the last entry's new key is not among the keys the
      entries before it were stored under. */
  lemma LastKeyFresh<V>(original: seq<(string, V)>, mapping: seq<(string, string)>)
    requires original != [] && NoCollision(original, mapping)
    requires var prev := Renamed(original[..|original| - 1], mapping);
      |prev| == |original| - 1 &&
      forall i :: 0 <= i < |prev| ==> prev[i].0 == NewKey(mapping, original[i].0)
    ensures NewKey(mapping, original[|original| - 1].0) !in Keys(Renamed(original[..|original| - 1], mapping))
  {
  }

  /** A last entry whose new key is fresh is appended. */
  lemma RenamedSnocFresh<V>(original: seq<(string, V)>, mapping: seq<(string, string)>)
    requires original != []
    requires NewKey(mapping, original[|original| - 1].0) !in Keys(Renamed(original[..|original| - 1], mapping))
    ensures Renamed(original, mapping) ==
      Renamed(original[..|original| - 1], mapping) + [(NewKey(mapping, original[|original| - 1].0), original[|original| - 1].1)]
  {
  }

  /** `rename_keys(original_dict, key_mapping)`: KeyError listing the mapping
      keys the dictionary lacks, otherwise a new dictionary. */
  method RenameKeys<V>(original: seq<(string, V)>, mapping: seq<(string, string)>) returns (r: Result<seq<(string, V)>, Error>)
    ensures AbsentKeys(original, mapping) != [] ==> r == Err(MissingKeys(AbsentKeys(original, mapping)))
    ensures AbsentKeys(original, mapping) == [] ==> r == Ok(Renamed(original, mapping))
  {
    var missingKeys: seq<string> := [];
    for k := 0 to |mapping|
      invariant missingKeys == AbsentKeys(original, mapping[..k])
    {
      AbsentKeysSnoc(original, mapping, k);
      if mapping[k].0 !in Keys(original) {
        missingKeys := missingKeys + [mapping[k].0];
      }
    }
    assert mapping[..|mapping|] == mapping;
    if missingKeys != [] {
      return Err(MissingKeys(missingKeys));
    }
    var renamedDict: seq<(string, V)> := [];
    for k := 0 to |original|
      invariant renamedDict == Renamed(original[..k], mapping)
    {
      var (oldKey, value) := original[k];
      var newKey := NewKey(mapping, oldKey);
      RenamedSnoc(original, mapping, k);
      renamedDict := Put(renamedDict, newKey, value);
    }
    assert original[..|original|] == original;
    return Ok(renamedDict);
  }

  /** Renaming one more entry of `original` puts it under its new key. */
  lemma RenamedSnoc<V>(original: seq<(string, V)>, mapping: seq<(string, string)>, k: nat)
    requires k < |original|
    ensures Renamed(original[..k + 1], mapping) ==
      Put(Renamed(original[..k], mapping), NewKey(mapping, original[k].0), original[k].1)
  {
    assert original[..k + 1][..k] == original[..k];
  }

  /** Scanning the mapping one more key extends the absent keys by that key
      exactly when the dictionary lacks it. */
  lemma AbsentKeysSnoc<V>(original: seq<(string, V)>, mapping: seq<(string, string)>, k: nat)
    requires k < |mapping|
    ensures AbsentKeys(original, mapping[..k + 1]) ==
      AbsentKeys(original, mapping[..k]) + (if mapping[k].0 in Keys(original) then [] else [mapping[k].0])
  {
    var ks := Keys(mapping[..k + 1]);
    assert ks[..k] == Keys(mapping[..k]);
  }

  /** The Python values `save_annotated_metadata` tells apart by `isinstance`. */
  datatype PyValue = PyNone | PyBool(b: bool) | PyStr(s: string) | PyList(items: seq<string>) | PyOther

  /** `save_annotated_metadata` up to the CSV write: the table it exports (its
      index is always written), or the error its checks raise, in their order. */
  function SaveAnnotatedMetadata(t: Table, keepCols: PyValue, fullMetadata: PyValue): (r: Result<Table, Error>)
    requires WellFormed(t)
    ensures (r == Err(FullMetadataNotBool)) <==> !fullMetadata.PyBool?
    ensures fullMetadata == PyBool(true) ==> r == Ok(t)
    ensures fullMetadata == PyBool(false) && keepCols.PyNone? ==> r == Err(KeepColsMissing)
    ensures fullMetadata == PyBool(false) && keepCols.PyStr? ==>
      r == if keepCols.s in t.columns then Select(t, [keepCols.s]) else Err(KeepColNotFound(keepCols.s))
    ensures fullMetadata == PyBool(false) && keepCols.PyList? ==>
      r == if AbsentColumns(t.columns, keepCols.items) == [] then Select(t, keepCols.items)
           else Err(KeepColsNotFound(AbsentColumns(t.columns, keepCols.items)))
    ensures fullMetadata == PyBool(false) && (keepCols.PyBool? || keepCols.PyOther?) ==> r == Err(KeepColsBadType)
  {
    if !fullMetadata.PyBool? then Err(FullMetadataNotBool)
    else if fullMetadata.b then Ok(t)
    else
      match keepCols
      case PyNone => Err(KeepColsMissing)
      case PyStr(c) => if c !in t.columns then Err(KeepColNotFound(c)) else Select(t, [c])
      case PyList(cols) =>
        var missing := AbsentColumns(t.columns, cols);
        if missing != [] then Err(KeepColsNotFound(missing)) else Select(t, cols)
      case _ => Err(KeepColsBadType)
  }

  /** A successful export keeps every row and label; its columns are all of
      them with `full_metadata`, otherwise exactly the columns asked for, in
      the order asked. */
  lemma SavedTable(t: Table, keepCols: PyValue, fullMetadata: PyValue)
    requires WellFormed(t) && SaveAnnotatedMetadata(t, keepCols, fullMetadata).Ok?
    ensures var e := SaveAnnotatedMetadata(t, keepCols, fullMetadata).value;
      WellFormed(e) && e.index == t.index &&
      e.columns == (if fullMetadata.b then t.columns else if keepCols.PyStr? then [keepCols.s] else keepCols.items) &&
      forall i, c :: 0 <= i < |t.rows| && c in e.columns ==> e.rows[i][c] == t.rows[i][c]
  {
  }
}
