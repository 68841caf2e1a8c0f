/** The `Image` class: one image's rows of a metadata DataFrame, and the state
    that `store_image`, `draw_labels`, `save_annotations` and
    `rename_annotations` build up on it. */
module ImageClass {
  import opened Wrappers
  import opened Errors
  import opened Tables
  import opened NdArrays
  import opened Calibration
  import opened LabelSplit
  import opened MaskCoords
  import opened Membership
  import opened Annotation
  import opened Utils
  import opened Dicts

  /** One column of `agg(['min', 'max']).to_dict(orient='list')`: the column's
      `[min, max]`, or NaN for both on a selection without rows. */
  datatype Extent = Span(lo: real, hi: real) | Undefined

  /** The extent of a numeric column: undefined exactly when there is no row,
      otherwise bounds every cell and each bound is a cell. */
  function ColumnExtent(c: Table, col: string): (e: Extent)
    requires WellFormed(c) && col in c.columns && NumericColumn(c, col)
    ensures e.Undefined? <==> c.rows == []
    ensures e.Span? ==> forall i :: 0 <= i < |c.rows| ==> e.lo <= c.rows[i][col].n <= e.hi
    ensures e.Span? ==> (exists i :: 0 <= i < |c.rows| && c.rows[i][col].n == e.lo) &&
                        (exists i :: 0 <= i < |c.rows| && c.rows[i][col].n == e.hi)
  {
    if c.rows == [] then Undefined
    else
      var s := NumbersOf(c, col);
      assert forall i :: 0 <= i < |c.rows| ==> s[i] == c.rows[i][col].n;
      var lo :| 0 <= lo < |s| && s[lo] == MinOf(s);
      var hi :| 0 <= hi < |s| && s[hi] == MaxOf(s);
      Span(MinOf(s), MaxOf(s))
  }

  /** The extents agree with the dims `get_image_dims` reports for the image. */
  lemma ExtentsAreImageDims(t: Table, imagesCol: string, imageName: Value, xCol: string, yCol: string)
    requires WellFormed(t) && NumericColumn(t, xCol) && NumericColumn(t, yCol)
    requires GetImageDims(t, imagesCol, imageName, xCol, yCol).Ok?
    ensures var c := GetImageCoords(t, imagesCol, imageName, xCol, yCol).value;
      var d := GetImageDims(t, imagesCol, imageName, xCol, yCol).value;
      NumericColumn(c, xCol) && NumericColumn(c, yCol) &&
      ColumnExtent(c, xCol) == Span(d.xMin, d.xMax) && ColumnExtent(c, yCol) == Span(d.yMin, d.yMax)
  {
    ImageDimsOfSelection(t, imagesCol, imageName, xCol, yCol);
  }

  /** The bound a calibration receives from an extent. An undefined extent is
      NaN in Python; 0.0 stands in for it, since an image without rows puts no
      row in any region whatever the outlines (`EmptyTableNoMembers`). */
  function Lower(e: Extent): (x: real)
    ensures e.Span? ==> x == e.lo
    ensures e.Undefined? ==> x == Upper(e)
  {
    if e.Span? then e.lo else 0.0
  }

  function Upper(e: Extent): (x: real)
    ensures e.Span? ==> x == e.hi
  {
    if e.Span? then e.hi else 0.0
  }

  /** The groups `save_annotations` writes: each region drawn in `labels`, in
      data space within `b`, with the rows of `coords` inside it. */
  function SubsetCells(labels: NdArray, b: Bounds, coords: Table, xCol: string, yCol: string, trace: Tracer, within: Within)
    : (r: Result<seq<(string, seq<RowId>)>, Error>)
    requires WellShaped(labels) && WellFormed(coords) && HasCoordinates(coords, xCol, yCol)
    ensures r.Err? <==>
      exists i :: 0 <= i < |MasksDict(labels)| && MaskPoints(MasksDict(labels)[i].0, MasksDict(labels)[i].1, b, trace).Err?
    ensures r.Ok? ==> |r.value| == |Regions(labels)|
    ensures r.Ok? ==>
      forall g :: 0 <= g < |r.value| ==>
        r.value[g].0 == LabelName(Regions(labels)[g]) && forall id :: id in r.value[g].1 ==> id in coords.index
  {
    CoordsFromDictFails(MasksDict(labels), b, trace);
    match CoordsFromDict(MasksDict(labels), b, trace)
    case Err(e) => Err(e)
    case Ok(outlines) =>
      CellNamesFromTable(coords, xCol, yCol, outlines, within);
      Ok(CellNames(coords, xCol, yCol, outlines, within))
  }

  /** Every label of the coordinates of an image is the label of a row of
      that image. */
  lemma ImageCoordsLabels(t: Table, imagesCol: string, imageName: Value, xCol: string, yCol: string)
    requires WellFormed(t) && GetImageCoords(t, imagesCol, imageName, xCol, yCol).Ok?
    ensures forall id :: id in GetImageCoords(t, imagesCol, imageName, xCol, yCol).value.index ==>
      exists i :: 0 <= i < |t.rows| && t.index[i] == id && t.rows[i][imagesCol] == imageName
  {
    ImageCoordsRows(t, imagesCol, imageName, xCol, yCol);
    var coords := GetImageCoords(t, imagesCol, imageName, xCol, yCol).value;
    var p := PositionsWhere(t.rows, imagesCol, imageName);
    forall id | id in coords.index
      ensures exists i :: 0 <= i < |t.rows| && t.index[i] == id && t.rows[i][imagesCol] == imageName
    {
      var k :| 0 <= k < |coords.index| && coords.index[k] == id;
      assert t.index[p[k]] == id && t.rows[p[k]][imagesCol] == imageName;
    }
  }

  /** Every label the groups of an image list is the label of a row of that
      image. */
  lemma GroupsListImageRows(t: Table, imagesCol: string, imageName: Value, xCol: string, yCol: string,
                            outlines: seq<(string, seq<Coord>)>, within: Within)
    requires WellFormed(t) && GetImageCoords(t, imagesCol, imageName, xCol, yCol).Ok?
    ensures var coords := GetImageCoords(t, imagesCol, imageName, xCol, yCol).value;
      HasCoordinates(coords, xCol, yCol) && |CellNames(coords, xCol, yCol, outlines, within)| == |outlines|
    ensures var coords := GetImageCoords(t, imagesCol, imageName, xCol, yCol).value;
      HasCoordinates(coords, xCol, yCol) &&
      forall g, id :: 0 <= g < |outlines| && id in CellNames(coords, xCol, yCol, outlines, within)[g].1 ==>
        exists i :: 0 <= i < |t.rows| && t.index[i] == id && t.rows[i][imagesCol] == imageName
  {
    ImageCoordsRows(t, imagesCol, imageName, xCol, yCol);
    ImageCoordsLabels(t, imagesCol, imageName, xCol, yCol);
    var coords := GetImageCoords(t, imagesCol, imageName, xCol, yCol).value;
    CellNamesFromTable(coords, xCol, yCol, outlines, within);
  }

  /** `t` has the rows of `s`, with the same labels and the same image names;
      the annotations written since `s` was taken may differ. */
  predicate SameImageRows(s: Table, t: Table, imagesCol: string)
  {
    s.index == t.index && |s.rows| == |t.rows| &&
    forall i :: 0 <= i < |s.rows| ==>
      imagesCol in s.rows[i] && imagesCol in t.rows[i] && s.rows[i][imagesCol] == t.rows[i][imagesCol]
  }

  /** Annotating a metadata `t` with the groups of an image's rows in `s`, which
      `t` shares labels and image names with, never fails (every listed row
      exists), and with a unique index changes no row of another image but for
      the annotation column, which a new column fills with the sentinel. */
  lemma OtherImagesUntouched(s: Table, t: Table, imagesCol: string, imageName: Value, xCol: string, yCol: string,
                             outlines: seq<(string, seq<Coord>)>, within: Within, annCol: string)
    requires WellFormed(s) && WellFormed(t) && UniqueIndex(t) && SameImageRows(s, t, imagesCol)
    requires GetImageCoords(s, imagesCol, imageName, xCol, yCol).Ok?
    ensures var coords := GetImageCoords(s, imagesCol, imageName, xCol, yCol).value;
      HasCoordinates(coords, xCol, yCol) &&
      Annotated(t, CellNames(coords, xCol, yCol, outlines, within), annCol).failure.None?
    ensures var coords := GetImageCoords(s, imagesCol, imageName, xCol, yCol).value;
      HasCoordinates(coords, xCol, yCol) &&
      forall i :: 0 <= i < |t.rows| && t.rows[i][imagesCol] != imageName ==>
        Annotated(t, CellNames(coords, xCol, yCol, outlines, within), annCol).table.rows[i] ==
        t.rows[i][annCol := Prior(t, i, annCol)]
  {
    GroupsListImageRows(s, imagesCol, imageName, xCol, yCol, outlines, within);
    var coords := GetImageCoords(s, imagesCol, imageName, xCol, yCol).value;
    var groups := CellNames(coords, xCol, yCol, outlines, within);
    AnnotatedFails(t, groups, annCol);
    forall g, id | 0 <= g < |groups| && id in groups[g].1 ensures id in t.index {
      var j :| 0 <= j < |s.rows| && s.index[j] == id && s.rows[j][imagesCol] == imageName;
      assert t.index[j] == id;
    }
    AnnotatedCells(t, groups, annCol);
    forall i | 0 <= i < |t.rows| && t.rows[i][imagesCol] != imageName
      ensures LastLabel(groups, t.index[i]).None?
    {
      LastLabelWhen(groups, t.index[i]);
      forall j | 0 <= j < |s.rows| && s.rows[j][imagesCol] == imageName ensures s.index[j] != t.index[i] {
        assert j != i;
      }
    }
  }

  /** The groups `save_annotations` computes from the image's rows in `s`,
      once written into `t`, raise no KeyError and leave the rows of other
      images as they were but for the annotation column. */
  ghost predicate SpareOtherImages(s: Table, t: Table, imagesCol: string, imageName: Value, xCol: string, yCol: string,
                                   labels: NdArray, b: Bounds, trace: Tracer, within: Within, annCol: string)
    requires WellFormed(s) && WellFormed(t) && SameImageRows(s, t, imagesCol) && WellShaped(labels)
    requires GetImageCoords(s, imagesCol, imageName, xCol, yCol).Ok?
  {
    ImageCoordsRows(s, imagesCol, imageName, xCol, yCol);
    var cells := SubsetCells(labels, b, GetImageCoords(s, imagesCol, imageName, xCol, yCol).value, xCol, yCol, trace, within);
    cells.Ok? ==>
      var a := Annotated(t, cells.value, annCol);
      a.failure.None? &&
      forall i :: 0 <= i < |t.rows| && t.rows[i][imagesCol] != imageName ==> a.table.rows[i] == t.rows[i][annCol := Prior(t, i, annCol)]
  }

  lemma SubsetCellsSpareOtherImages(s: Table, t: Table, imagesCol: string, imageName: Value, xCol: string, yCol: string,
                                    labels: NdArray, b: Bounds, trace: Tracer, within: Within, annCol: string)
    requires WellFormed(s) && WellFormed(t) && UniqueIndex(t) && SameImageRows(s, t, imagesCol) && WellShaped(labels)
    requires GetImageCoords(s, imagesCol, imageName, xCol, yCol).Ok?
    ensures SpareOtherImages(s, t, imagesCol, imageName, xCol, yCol, labels, b, trace, within, annCol)
  {
    var outlines := CoordsFromDict(MasksDict(labels), b, trace);
    if outlines.Ok? {
      OtherImagesUntouched(s, t, imagesCol, imageName, xCol, yCol, outlines.value, within, annCol);
    }
  }

  /** An annotation column other than the image column keeps the labels and
      image names, whether or not annotating fails. */
  lemma AnnotationKeepsImageRows(s: Table, t: Table, imagesCol: string, groups: seq<(string, seq<RowId>)>, annCol: string)
    requires WellFormed(t) && SameImageRows(s, t, imagesCol) && annCol != imagesCol
    ensures SameImageRows(s, Annotated(t, groups, annCol).table, imagesCol)
    ensures UniqueIndex(t) ==> UniqueIndex(Annotated(t, groups, annCol).table)
  {
    AnnotatedOtherCells(t, groups, annCol);
  }

  /** Renaming the values of a column other than the image column keeps the
      labels and image names. */
  lemma RenamingKeepsImageRows(s: Table, t: Table, imagesCol: string, col: string, mapping: seq<(Value, Value)>)
    requires WellFormed(t) && SameImageRows(s, t, imagesCol) && col != imagesCol
    ensures SameImageRows(s, ReplaceInColumn(t, col, mapping), imagesCol)
    ensures UniqueIndex(t) ==> UniqueIndex(ReplaceInColumn(t, col, mapping))
  {
    ReplaceInColumnCells(t, col, mapping);
  }

  /** The fields an `Image` updates, as one value. */
  datatype ImageState = ImageState(
    imageMetadata: Table,
    imageCoords: Table,
    imageDims: map<string, Extent>,
    imageArray: Option<NdArray>,
    labelsLayer: Option<NdArray>,
    masksDict: seq<(string, NdArray)>,
    annotatedMetadataDf: Frame?)

  class Image {
    /** The DataFrame given to the constructor, shared with the caller. */
    const metadataDf: Frame
    const imagesCol: string
    const imageName: Value
    const xCol: string
    const yCol: string
    /** The contents of `metadataDf` when the image was made. */
    ghost const source: Table

    var imageMetadata: Table
    var imageCoords: Table
    var imageDims: map<string, Extent>
    var imageArray: Option<NdArray>
    var labelsLayer: Option<NdArray>
    var masksDict: seq<(string, NdArray)>
    /** `_annotated_metadata_df`, which does not exist until `save_annotations`
        returns, and is then `metadataDf` itself. */
    var annotatedMetadataDf: Frame?

    function State(): ImageState
      reads this
    {
      ImageState(imageMetadata, imageCoords, imageDims, imageArray, labelsLayer, masksDict, annotatedMetadataDf)
    }

    /** The image's rows, coordinates and dims are those of `source`. */
    ghost predicate Valid()
      reads this, metadataDf
    {
      metadataDf.Valid() && WellFormed(source) &&
      GetImageCoords(source, imagesCol, imageName, xCol, yCol).Ok? &&
      imageMetadata == RowsWhere(source, imagesCol, imageName) &&
      imageCoords == GetImageCoords(source, imagesCol, imageName, xCol, yCol).value &&
      WellFormed(imageCoords) && imageCoords.columns == [xCol, yCol] &&
      NumericColumn(imageCoords, xCol) && NumericColumn(imageCoords, yCol) &&
      imageDims == map[xCol := ColumnExtent(imageCoords, xCol), yCol := ColumnExtent(imageCoords, yCol)] &&
      (labelsLayer.Some? ==> WellShaped(labelsLayer.value)) &&
      (annotatedMetadataDf == null || annotatedMetadataDf == metadataDf)
    }

    /** The calibration rectangle `save_annotations` passes on. */
    function DimsBounds(): (b: Bounds)
      reads this, metadataDf
      requires Valid()
      ensures Ordered(b)
      ensures imageDims[xCol].Span? ==> b.xMin == imageDims[xCol].lo && b.xMax == imageDims[xCol].hi
      ensures imageDims[yCol].Span? ==> b.yMin == imageDims[yCol].lo && b.yMax == imageDims[yCol].hi
    {
      Bounds(Lower(imageDims[xCol]), Upper(imageDims[xCol]), Lower(imageDims[yCol]), Upper(imageDims[yCol]))
    }

    /** `Image(metadata_df, images_col, image_name, x_col, y_col)` when the three
        columns exist. */
    constructor (metadataDf: Frame, imagesCol: string, imageName: Value, xCol: string, yCol: string)
      requires metadataDf.Valid() && GetImageCoords(metadataDf.Snapshot(), imagesCol, imageName, xCol, yCol).Ok?
      requires NumericColumn(metadataDf.Snapshot(), xCol) && NumericColumn(metadataDf.Snapshot(), yCol)
      ensures Valid() && source == metadataDf.Snapshot() && SameImageRows(source, metadataDf.Snapshot(), imagesCol)
      ensures this.metadataDf == metadataDf && this.imagesCol == imagesCol && this.imageName == imageName
      ensures this.xCol == xCol && this.yCol == yCol
      ensures imageArray == None && labelsLayer == None && masksDict == [] && annotatedMetadataDf == null
    {
      this.metadataDf := metadataDf;
      this.imagesCol := imagesCol;
      this.imageName := imageName;
      this.xCol := xCol;
      this.yCol := yCol;
      var t := metadataDf.Snapshot();
      source := t;
      ImageCoordsRows(t, imagesCol, imageName, xCol, yCol);
      SelectionNumeric(t, imagesCol, imageName, xCol, yCol);
      var rows := RowsWhere(t, imagesCol, imageName);
      imageMetadata := rows;
      var coords := Select(rows, [xCol, yCol]).value;
      imageCoords := coords;
      imageDims := map[xCol := ColumnExtent(coords, xCol), yCol := ColumnExtent(coords, yCol)];
      imageArray := None;
      labelsLayer := None;
      masksDict := [];
      annotatedMetadataDf := null;
    }

    /** The constructor with its KeyErrors: the image column is compared first,
        then the coordinate columns are selected. */
    static method Create(metadataDf: Frame, imagesCol: string, imageName: Value, xCol: string, yCol: string)
      returns (r: Result<Image, Error>)
      requires metadataDf.Valid()
      requires NumericColumn(metadataDf.Snapshot(), xCol) && NumericColumn(metadataDf.Snapshot(), yCol)
      ensures GetImageCoords(metadataDf.Snapshot(), imagesCol, imageName, xCol, yCol).Err? ==>
        r == Err(GetImageCoords(metadataDf.Snapshot(), imagesCol, imageName, xCol, yCol).error)
      ensures GetImageCoords(metadataDf.Snapshot(), imagesCol, imageName, xCol, yCol).Ok? ==>
        r.Ok? && fresh(r.value) && r.value.Valid() && r.value.source == metadataDf.Snapshot() &&
        SameImageRows(r.value.source, metadataDf.Snapshot(), imagesCol) && r.value.imagesCol == imagesCol &&
        r.value.imageName == imageName && r.value.xCol == xCol && r.value.yCol == yCol &&
        r.value.metadataDf == metadataDf && r.value.labelsLayer == None && r.value.imageArray == None &&
        r.value.masksDict == [] && r.value.annotatedMetadataDf == null
    {
      var coords := GetImageCoords(metadataDf.Snapshot(), imagesCol, imageName, xCol, yCol);
      if coords.Err? {
        return Err(coords.error);
      }
      var image := new Image(metadataDf, imagesCol, imageName, xCol, yCol);
      return Ok(image);
    }

    /** `store_image(...)`: the rendered scatter plot, which is not modelled, is
        stored as the image array. */
    method StoreImage(rendered: NdArray) returns (a: NdArray)
      requires Valid()
      modifies this
      ensures Valid() && a == rendered
      ensures State() == old(State()).(imageArray := Some(rendered))
    {
      imageArray := Some(rendered);
      return rendered;
    }

    /** `draw_labels()`: the labels painted in the viewer, which is not
        modelled, become the labels layer; without an image array nothing is
        opened and ValueError is raised. */
    method DrawLabels(drawn: NdArray) returns (r: Result<NdArray, Error>)
      requires Valid() && WellShaped(drawn)
      modifies this
      ensures Valid()
      ensures old(imageArray).None? ==> r == Err(NoImageArray) && State() == old(State())
      ensures old(imageArray).Some? ==> r == Ok(drawn) && State() == old(State()).(labelsLayer := Some(drawn))
    {
      if imageArray.None? {
        return Err(NoImageArray);
      }
      labelsLayer := Some(drawn);
      return Ok(drawn);
    }

    /** `save_annotations(ann_col_name)`: the drawn regions are split into
        masks, outlined in data space within the image's dims, matched against
        the image's points, and written into the shared metadata. */
    method SaveAnnotations(annCol: string, trace: Tracer, within: Within) returns (r: Result<Frame, Error>)
      requires Valid()
      modifies this, metadataDf
      ensures Valid()
      ensures old(labelsLayer).None? ==>
        r == Err(NoLabelsDrawn) && State() == old(State()) && metadataDf.Snapshot() == old(metadataDf.Snapshot())
      ensures old(labelsLayer).Some? ==>
        masksDict == MasksDict(old(labelsLayer).value) &&
        State() == old(State()).(masksDict := masksDict, annotatedMetadataDf := annotatedMetadataDf)
      ensures old(labelsLayer).Some? ==>
        var cells := SubsetCells(old(labelsLayer).value, old(DimsBounds()), imageCoords, xCol, yCol, trace, within);
        (cells.Err? ==> r == Err(cells.error) && metadataDf.Snapshot() == old(metadataDf.Snapshot()) &&
                        annotatedMetadataDf == old(annotatedMetadataDf)) &&
        (cells.Ok? ==>
          var a := Annotated(old(metadataDf.Snapshot()), cells.value, annCol);
          metadataDf.Snapshot() == a.table &&
          (a.failure.None? ==> r == Ok(metadataDf) && annotatedMetadataDf == metadataDf) &&
          (a.failure.Some? ==> r == Err(a.failure.value) && annotatedMetadataDf == old(annotatedMetadataDf)))
      ensures old(labelsLayer).Some? && UniqueIndex(old(metadataDf.Snapshot())) &&
              SameImageRows(source, old(metadataDf.Snapshot()), imagesCol) ==>
        SpareOtherImages(source, old(metadataDf.Snapshot()), imagesCol, imageName, xCol, yCol,
                         old(labelsLayer).value, old(DimsBounds()), trace, within, annCol)
      ensures annCol != imagesCol && SameImageRows(source, old(metadataDf.Snapshot()), imagesCol) ==>
        SameImageRows(source, metadataDf.Snapshot(), imagesCol) &&
        (UniqueIndex(old(metadataDf.Snapshot())) ==> UniqueIndex(metadataDf.Snapshot()))
    {
      if labelsLayer.None? {
        return Err(NoLabelsDrawn);
      }
      ghost var st := State();
      var labels := labelsLayer.value;
      var masks := LabelsToMasksDict(labelsLayer);
      masksDict := masks.value;
      assert State() == st.(masksDict := masksDict);
      MasksDictDistinct(labels);
      var b := DimsBounds();
      var maskCoords := GetMaskCoordsFromDict(masksDict, b.xMin, b.xMax, b.yMin, b.yMax, trace);
      if maskCoords.Err? {
        return Err(maskCoords.error);
      }
      CoordsFromDictKeys(masksDict, b, trace);
      var subsetCells := GetCellNames(imageCoords, xCol, yCol, maskCoords.value, within);
      ghost var before := metadataDf.Snapshot();
      if UniqueIndex(before) && SameImageRows(source, before, imagesCol) {
        SubsetCellsSpareOtherImages(source, before, imagesCol, imageName, xCol, yCol, labels, b, trace, within, annCol);
      }
      if annCol != imagesCol && SameImageRows(source, before, imagesCol) {
        AnnotationKeepsImageRows(source, before, imagesCol, subsetCells.value, annCol);
      }
      var annotated := AnnotateMetadata(subsetCells.value, metadataDf, annCol);
      if annotated.Err? {
        return Err(annotated.error);
      }
      annotatedMetadataDf := annotated.value;
      return annotated;
    }

    /** `rename_annotations(ann_col_name, mapping_dict)`: raises AttributeError
        before `save_annotations` has succeeded; otherwise replaces values of
        the annotation column, if present, in the shared metadata. */
    method RenameAnnotations(annCol: string, mapping: seq<(Value, Value)>) returns (r: Result<Frame, Error>)
      requires Valid()
      modifies metadataDf
      ensures Valid()
      ensures annotatedMetadataDf == null ==>
        r == Err(NoAnnotatedMetadata) && metadataDf.Snapshot() == old(metadataDf.Snapshot())
      ensures annotatedMetadataDf != null ==>
        r == Ok(metadataDf) && metadataDf.Snapshot() == ReplaceInColumn(old(metadataDf.Snapshot()), annCol, mapping)
      ensures annCol != imagesCol && SameImageRows(source, old(metadataDf.Snapshot()), imagesCol) ==>
        SameImageRows(source, metadataDf.Snapshot(), imagesCol) &&
        (UniqueIndex(old(metadataDf.Snapshot())) ==> UniqueIndex(metadataDf.Snapshot()))
    {
      if annotatedMetadataDf == null {
        return Err(NoAnnotatedMetadata);
      }
      if annCol != imagesCol && SameImageRows(source, metadataDf.Snapshot(), imagesCol) {
        RenamingKeepsImageRows(source, metadataDf.Snapshot(), imagesCol, annCol, mapping);
      }
      annotatedMetadataDf.ReplaceColumnValues(annCol, mapping);
      return Ok(annotatedMetadataDf);
    }
  }
}
