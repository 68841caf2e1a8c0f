# SubsetMask in Dafny

SubsetMask lets a user draw regions over a scatter plot of one image's cells and
then write the region names into that image's rows of a metadata table. This
project models the pipeline behind that and proves properties of it:

- **Label splitting.** A labelled raster (napari's labels layer) becomes one mask
  per non-zero label, named `label_<n>`. Each mask has a white background (255)
  and a black region (0). `labels_to_masks_dict` and `save_masks` do this.
- **Thresholding and calibration.** OpenCV's inverse binary threshold at 1 turns
  each mask's region into foreground. The traced contour points are then mapped
  from pixel space into the data space of the image's points: an affine map whose
  y axis is inverted. `get_mask_coords_from_dict` and `get_mask_coords` do this.
- **Membership.** `get_cell_names` reports, for each region, the index labels of
  the rows whose point lies within the region's outline.
- **Annotation.** `annotate_metadata` writes each region's name into an
  annotation column, in place. The column is created with `"not_assigned"` when
  it is absent.
- **Utilities.** These select one image's rows, compute their extent, rename
  dictionary keys, and choose the columns of an export.
- **The `Image` class**, which holds this state and wires the steps together.

Both `subsetmask/image_helpers.py` and `subsetmask/core/main.py` implement
label splitting, coordinate scaling, membership and annotation. One model serves
both copies: `LabelSplit`, `MaskCoords`, `Membership` and `Annotation`.

How the data is represented:
- A Python dict is a sequence of (key, value) pairs in insertion order.
  `Dicts.Put` is `d[k] = v`: an existing key keeps its place, a new key is
  appended.
- A numpy array is its shape and its row-major data.
- A pandas DataFrame is ordered columns, an index of row labels, and one map per
  row. `Tables.Table` is a DataFrame as a value. `Tables.Frame` is a DataFrame
  object that methods update in place.
- Exceptions are `Result` values. Each `Errors.Error` constructor maps to its
  Python class.
- Arithmetic is exact `real`.
- Contour tracing (`cv2.findContours`) is a function parameter, `Tracer`.
- The point-in-polygon test of the spatial join is a function parameter,
  `Within`.

Each module has one file: `wrappers`, `errors`, `dicts`, `ndarrays`, `decimal`,
`tables`, `calibration`, `labelsplit`, `maskcoords`, `membership`, `annotation`,
`utils`, `image`.

## Model

| member | source | states |
|---|---|---|
| Dicts.LookupFound | subsetmask/core/utils.py:75 | A key is found in a dict exactly when it is one of the dict's keys. |
| Dicts.Put | subsetmask/core/utils.py:76 | `d[k] = v`: the key order is unchanged for an existing key. A new key is appended at the end, with its value. |
| Dicts.PutLookup | subsetmask/core/utils.py:76 | After `d[k] = v`, looking up `k` gives `v`. Every other key gives what it gave before. |
| Dicts.PutDistinct | subsetmask/image_helpers.py:106 | Storing into a dict with distinct keys keeps the keys distinct. |
| NdArrays.MaskFor | subsetmask/image_helpers.py:104-105 | The mask has the labels' shape. A pixel is 0 exactly where the label grid holds the label, and 255 everywhere else. |
| NdArrays.ThresholdBinaryInv | subsetmask/image_helpers.py:134 | The shape is kept and every pixel becomes 0 or `maxval`. With a non-zero `maxval`, a pixel is `maxval` exactly when its value is at most the threshold. |
| NdArrays.Binarize | subsetmask/image_helpers.py:134 | `cv2.threshold(mask, 1, 255, THRESH_BINARY_INV)` keeps the shape. A pixel becomes 255 exactly when its value is at most 1, and 0 exactly when it is above 1. |
| NdArrays.BinarizedMaskIsLabel | subsetmask/image_helpers.py:134 | Thresholding a label's mask (`THRESH_BINARY_INV` at 1, max 255) keeps the shape. A pixel is 255 exactly where the grid holds that label, and 0 elsewhere. |
| NdArrays.Unique | subsetmask/image_helpers.py:97 | `np.unique`: strictly increasing, with exactly the values of the data. |
| Decimal.NatToDecimal | subsetmask/image_helpers.py:106 | The decimal text of a natural number is non-empty and made of digits. |
| Decimal.NatToDecimalValue | subsetmask/image_helpers.py:106 | `str(n)` spells `n`: its digits, read most significant first, have the value `n`. Only `0` itself starts with a `0`. |
| Decimal.IntToDecimalValue | subsetmask/image_helpers.py:106 | `str(i)` is the digits of `i`, preceded by `-` exactly when `i` is negative, and those digits spell the magnitude of `i`. |
| Decimal.IntToDecimalInjective | subsetmask/image_helpers.py:106 | Different integers have different decimal texts. |
| LabelSplit.LabelName | subsetmask/image_helpers.py:106 | `f"label_{label}"` is `label_` followed by the label's decimal text `str(label)`. That text starts with `-` exactly for a negative label, and is all digits otherwise. |
| LabelSplit.LabelNameInjective | subsetmask/image_helpers.py:106 | Different labels get different keys `label_<n>`. |
| LabelSplit.NonZero | subsetmask/image_helpers.py:100-102 | The background 0 is skipped and every other value is kept. A strictly increasing input, as `np.unique` gives, yields a strictly increasing result. |
| LabelSplit.Regions | subsetmask/image_helpers.py:97-102 | The labels the loop makes masks for are `np.unique` of the data without the 0: strictly increasing, and exactly the non-zero values present. |
| LabelSplit.MasksDict | subsetmask/image_helpers.py:97-108 | The dictionary has one entry per region, in order. The entry's key is `label_<l>`, and its mask has the labels' shape. |
| LabelSplit.MasksDictKeys | subsetmask/image_helpers.py:97-106 | There is one key per region, in order. The keys are distinct, and each is `label_<l>` for a non-zero label `l` present in the grid. Looking up `label_<l>` gives that label's mask when `l` is non-zero and present, and nothing otherwise. |
| LabelSplit.LabelsToMasksDict | subsetmask/image_helpers.py:93-108 | A missing labels layer raises ValueError. Otherwise the loop builds the masks dictionary: one `label_<l>` mask per non-zero label, in ascending label order. |
| LabelSplit.SaveMasks | subsetmask/core/main.py:40-52 | One image is written per non-zero label, in ascending order. Each image is that label's mask and goes to `<output_dir>/label_<l>.png`. |
| LabelSplit.JoinPath | subsetmask/core/main.py:51 | The path starts with the directory and ends with the name. With an empty directory it is the name. Otherwise exactly one `/` comes between the directory and the name, unless the directory already ends with one. |
| Calibration.ScaleX | subsetmask/image_helpers.py:129 | `scale_x = (x_max - x_min) / width`: `width` steps of it span the x range exactly. It is non-negative for ordered bounds, and positive when the x range is not empty. |
| Calibration.ScaleY | subsetmask/image_helpers.py:130 | `scale_y = (y_max - y_min) / height`: `height` steps of it span the y range exactly. It is non-negative for ordered bounds, and positive when the y range is not empty. |
| Calibration.ToDataSpace | subsetmask/image_helpers.py:142-143 | `x * scale_x + x_min` and `y_max - y * scale_y`: column 0 maps to `x_min` and column `width` to `x_max`. Row 0 maps to `y_max` and row `height` to `y_min`. |
| Calibration.ToDataSpaceInBounds | subsetmask/image_helpers.py:128-143 | With ordered bounds and a pixel inside the grid, the mapped point lies inside the calibration rectangle. |
| Calibration.ToDataSpaceCorners | subsetmask/image_helpers.py:142-143 | The top-left pixel maps to (x_min, y_max). The pixel (width, height) maps to (x_max, y_min). |
| Calibration.ToDataSpaceOrientation | subsetmask/image_helpers.py:142-143 | The map keeps the order of x and reverses the order of y. |
| Calibration.ToDataSpaceRoundTrip | subsetmask/image_helpers.py:129-143 | The inverse map recovers the pixel from its data-space point. |
| MaskCoords.Flatten | subsetmask/image_helpers.py:138-144 | The nested loop's point list contains every point of every contour. |
| MaskCoords.FlattenAppend | subsetmask/image_helpers.py:139-144 | The points of two runs of contours are the points of the first run followed by the second. |
| MaskCoords.FlattenContourOrder | subsetmask/image_helpers.py:139-144 | Points are emitted contour by contour: the first contour's points come first. |
| MaskCoords.FlattenInGrid | subsetmask/image_helpers.py:136-141 | If the tracer keeps to the grid, so does every emitted point. |
| MaskCoords.MaskPoints | subsetmask/image_helpers.py:125-144 | A mask that is not 2-D raises ValueError. A zero width or height raises ZeroDivisionError. Otherwise there is one point per traced pixel, in trace order, each mapped into data space. |
| MaskCoords.CoordsFromDict | subsetmask/image_helpers.py:122-149 | On success the outlines dictionary has one entry per mask with the mask's key, in order. |
| MaskCoords.CoordsFromDictKeys | subsetmask/image_helpers.py:124-147 | On success the outlines have the masks' keys, in order. Each outline holds all of its mask's contour points, mapped into data space and in contour order. |
| MaskCoords.CoordsFromDictFails | subsetmask/image_helpers.py:124-126 | The call fails exactly when some mask is not 2-D or is empty. The error is that of the first such mask. |
| MaskCoords.CoordsFromDictInBounds | subsetmask/image_helpers.py:128-147 | With ordered bounds and a tracer inside the grid, every outline point lies inside the calibration rectangle. |
| MaskCoords.ScaleContours | subsetmask/image_helpers.py:138-144 | The nested loop emits every contour point, mapped into data space, in contour order. |
| MaskCoords.GetMaskCoordsFromDict | subsetmask/image_helpers.py:122-149 | The loop over masks computes the outlines dictionary, or stops with the first mask's error. |
| MaskCoords.GetMaskCoords | subsetmask/core/main.py:75-106 | The CSV rows are an `x`,`y` header, then one row per contour point in contour order. Scaling is the same as for `get_mask_coords_from_dict`. |
| Membership.MembersOf | subsetmask/image_helpers.py:191-194 | A row label is reported exactly when some row carrying it passes the within test. No more labels are reported than there are rows. |
| Membership.MembersInRowOrder | subsetmask/image_helpers.py:191-194 | One label is reported per row within the outline, in row order: the k-th label is that of the k-th such row. |
| Membership.Members | subsetmask/image_helpers.py:191-194 | For one table and outline, a label is listed exactly when a row carrying it lies within the outline. |
| Membership.CellNames | subsetmask/image_helpers.py:185-196 | There is one entry per outline, under the outline's key, in order. Each entry lists exactly the labels of the rows within that outline. |
| Membership.CellNamesFromTable | subsetmask/core/main.py:142-158 | The result keys are the outline keys, in order. Every reported id is an index label of the coordinates table. |
| Membership.EmptyTableNoMembers | subsetmask/image_helpers.py:185-196 | A table without rows puts no row in any region. |
| Membership.GetCellNames | subsetmask/core/main.py:129-158 | A missing x or y column raises ValueError. Otherwise the loop builds each region's point labels, in outline order. |
| Annotation.WithSentinel | subsetmask/image_helpers.py:211-213 | After the step the annotation column exists, and the row labels are unchanged. |
| Annotation.ApplyGroups | subsetmask/image_helpers.py:215-217 | The `.loc` assignments keep the columns and the row labels. |
| Annotation.Annotated | subsetmask/core/main.py:176-183 | The row labels are unchanged. The columns gain the annotation column only when it was absent. |
| Annotation.LastLabelWhen | subsetmask/image_helpers.py:216-217 | A row keeps its annotation exactly when no group lists it. Otherwise it takes the label of a group that lists it and that no later group lists, so the last writer wins. |
| Annotation.ApplyGroupsFails | subsetmask/image_helpers.py:216-217 | The assignments stop exactly when some group lists a label that is missing from the index. |
| Annotation.StopsAtFirstMissing | subsetmask/image_helpers.py:216-217 | The KeyError names the missing labels of the first such group. The frame keeps the assignments of the groups before it. |
| Annotation.ApplyGroupsCells | subsetmask/image_helpers.py:216-217 | Without a failure, each row keeps all its cells except the annotation. The annotation is the label of the last group listing the row, or its earlier value. |
| Annotation.ApplyGroupsOtherCells | subsetmask/image_helpers.py:216-217 | The assignments change no cell outside the annotation column, even when a KeyError stops them. |
| Annotation.AnnotatedFails | subsetmask/core/main.py:180-181 | `annotate_metadata` fails exactly when some listed id is missing from the index. |
| Annotation.AnnotatedCells | subsetmask/core/main.py:176-183 | The annotation is the last listing group's label. If no group lists the row, it is the previous value, or `"not_assigned"` when the column is new. Every other cell is unchanged. |
| Annotation.AnnotatedOtherCells | subsetmask/image_helpers.py:211-217 | `annotate_metadata` changes no cell outside the annotation column, on success and on a KeyError alike. |
| Annotation.ApplyGroupsIdempotent | subsetmask/image_helpers.py:216-217 | Applying successful groups a second time gives the same table and again no failure. |
| Annotation.FirstMissingGroup | subsetmask/image_helpers.py:216-217 | When some group lists a missing label, there is a first such group: it lists a missing label and no group before it does. |
| Annotation.AnnotateIdempotent | subsetmask/image_helpers.py:211-218 | Annotating twice with the same groups gives the same table and the same outcome as annotating once, on success and on a KeyError alike. |
| Annotation.AnnotateMetadata | subsetmask/image_helpers.py:199-218 | The frame is updated in place to the annotated table, or to the partial table left when a KeyError interrupts it. The same frame is returned. |
| Tables.PositionsWhere | subsetmask/core/utils.py:17 | The filter keeps exactly the rows whose image cell equals the name, in their original order. |
| Tables.RowsWhere | subsetmask/core/utils.py:17 | `df[df[col] == v]` keeps the columns. Its rows and labels are exactly those of the matching rows, in their order. |
| Tables.Select | subsetmask/core/utils.py:126 | `df[cols]` raises KeyError naming the absent columns. Otherwise it gives exactly those columns, in the given order, with the same index and cells. |
| Tables.AbsentColumns | subsetmask/core/utils.py:120 | A name is listed exactly when it is requested and missing. |
| Tables.AbsentColumnsInOrder | subsetmask/core/utils.py:120 | There is one name per missing position of the request, in request order and with duplicates kept: the k-th name is the request at the k-th missing position. |
| Tables.WithConstColumn | subsetmask/image_helpers.py:213 | `df[c] = v` appends `c` when it is new and keeps the labels. Every row's `c` cell becomes `v`, and every other cell is kept. |
| Tables.MissingIds | subsetmask/image_helpers.py:217 | The list holds exactly the listed ids that are missing from the index. |
| Tables.AssignRows | subsetmask/image_helpers.py:217 | `.loc[ids, col] = v` raises KeyError exactly when some listed id is missing, naming those ids. Otherwise the columns and labels are kept, every listed row's `col` cell becomes `v`, and every other cell is kept. |
| Tables.ReplaceInColumnCells | subsetmask/image_class.py:114-115 | An absent column leaves the table unchanged. Otherwise a cell equal to a mapping key takes that key's value, any other cell passes through, and every other column is unchanged. |
| Tables.ReplaceValue | subsetmask/image_class.py:115 | A value that is a mapping key becomes that key's value. Any other value passes through unchanged. |
| Tables.ReplaceInColumn | subsetmask/image_class.py:115 | Replacing keeps the table well formed, with the same columns and labels. |
| Tables.Frame.LocAssign | subsetmask/image_helpers.py:217 | The frame takes the assignment, or stays unchanged and reports the KeyError. |
| Tables.Frame.SetConstColumn | subsetmask/image_helpers.py:213 | The frame becomes the table with the constant column. |
| Tables.Frame.ReplaceColumnValues | subsetmask/image_class.py:115 | The frame becomes the table with the column's values replaced. |
| Utils.GetImageCoords | subsetmask/core/utils.py:17 | A missing image column, then a missing x or y column, raises KeyError naming the missing columns. |
| Utils.ImageCoordsRows | subsetmask/core/utils.py:17 | The result has only the x and y columns. Its rows are exactly the image's rows, in their order, with their labels and coordinates. |
| Utils.MinOf | subsetmask/core/utils.py:37-38 | The minimum is at most every value and equals one of them. |
| Utils.MaxOf | subsetmask/core/utils.py:39-40 | The maximum is at least every value and equals one of them. |
| Utils.DimsOf | subsetmask/core/utils.py:37-48 | The dims dictionary: the min and max of the x and y columns, with each min at most its max. |
| Utils.DimsBound | subsetmask/core/utils.py:35-48 | Every point lies within the dims, and each of the four bounds is attained. |
| Utils.GetImageDims | subsetmask/core/utils.py:35-50 | The KeyErrors are those of the selection. With no row for the image, UnboundLocalError is raised. |
| Utils.ImageDimsOfSelection | subsetmask/core/utils.py:35-48 | On success the dims are the min and max over the image's selection. |
| Utils.AbsentKeys | subsetmask/core/utils.py:69 | A key is listed exactly when it is a mapping key that the dictionary lacks. |
| Utils.AbsentKeysInOrder | subsetmask/core/utils.py:69 | There is one key per mapping entry whose key the dictionary lacks, in mapping order. |
| Utils.NewKey | subsetmask/core/utils.py:75 | `key_mapping.get(old_key, old_key)`: a mapping key is renamed to its mapped value, and any other key is kept. |
| Utils.Renamed | subsetmask/core/utils.py:73-78 | The renamed dict has no more entries than the original. Its keys are exactly the new keys `mapping.get(k, k)`. |
| Utils.RenamedLookup | subsetmask/core/utils.py:73-78 | The renamed dict has distinct keys. Each key holds the value of the last original entry renamed to it. The keys are in first-occurrence order, so a key that several entries collide on keeps the place of the first. |
| Utils.RenamedKeyOrder | subsetmask/core/utils.py:73-78 | The keys of the renamed dict are the new keys in the order they first occur. |
| Utils.RenamedWithoutCollision | subsetmask/core/utils.py:73-78 | When no two entries get the same new key, every entry keeps its place and its value under `mapping.get(k, k)`. |
| Utils.RenameKeys | subsetmask/core/utils.py:69-78 | Mapping keys missing from the dictionary raise KeyError, listed in mapping order. Otherwise a new dictionary is built and the original is not modified. |
| Utils.SaveAnnotatedMetadata | subsetmask/core/utils.py:103-126 | A non-bool `full_metadata` raises TypeError, checked before anything else. Each `keep_cols` case raises its own error, in the code's order. On success the export is the whole table or the selection. |
| Utils.SavedTable | subsetmask/core/utils.py:106-128 | The export keeps every row and label. Its columns are all columns with `full_metadata`, otherwise exactly the requested ones, in order. |
| ImageClass.ColumnExtent | subsetmask/image_class.py:21 | `agg(['min', 'max'])` is undefined exactly on an empty selection. Otherwise it bounds every value, and both ends are attained. |
| ImageClass.ExtentsAreImageDims | subsetmask/image_class.py:21 | The stored extents are the dims that `get_image_dims` reports. |
| ImageClass.Lower | subsetmask/image_class.py:89-92 | The lower bound passed on is the `min` of the extent. For an extent without rows it equals the upper bound. |
| ImageClass.Upper | subsetmask/image_class.py:89-92 | The upper bound passed on is the `max` of the extent. |
| ImageClass.Image.DimsBounds | subsetmask/image_class.py:89-92 | The bounds given to `get_mask_coords_from_dict` are the stored dims' min and max of the x column and of the y column, and they are ordered. |
| ImageClass.SubsetCells | subsetmask/image_class.py:84-101 | The groups fail exactly when some mask cannot be outlined. Otherwise there is one group per region, keyed `label_<l>` in ascending label order, and each lists only labels of the image's coordinates. |
| ImageClass.GroupsListImageRows | subsetmask/image_class.py:95-101 | There is one group per region, and every label a group lists belongs to a row of the metadata whose image column holds this image. |
| ImageClass.OtherImagesUntouched | subsetmask/image_class.py:96-109 | The groups come from the image's rows in one table and are written into another table with the same labels and image names, such as the shared metadata after earlier saves. Then annotating never fails. With a unique index, rows of other images keep every cell, and a new annotation column gets `"not_assigned"` in them. |
| ImageClass.SubsetCellsSpareOtherImages | subsetmask/image_class.py:80-109 | The same holds for the groups that `save_annotations` computes from the labels layer. |
| ImageClass.AnnotationKeepsImageRows | subsetmask/image_class.py:103-109 | An annotation column other than the image column keeps the labels and the image names, even on a KeyError. |
| ImageClass.RenamingKeepsImageRows | subsetmask/image_class.py:112-116 | Renaming values of a column other than the image column keeps the labels and the image names. |
| ImageClass.Image.constructor | subsetmask/image_class.py:12-24 | The image's rows, coordinates and [min, max] dims come from the metadata. There is no image array and no labels layer, and the masks dictionary is empty. The metadata has the image's rows and labels. |
| ImageClass.Image.Create | subsetmask/image_class.py:12-20 | Construction raises the selection's KeyError when a column is missing. Otherwise it builds a valid image for exactly the given image name and x/y columns, over the given metadata, with no array, no labels, no masks and no annotated table yet. |
| ImageClass.Image.StoreImage | subsetmask/image_class.py:58-70 | The rendered array is stored and returned, and nothing else changes. |
| ImageClass.Image.DrawLabels | subsetmask/image_helpers.py:70-71 | Without an image array, ValueError is raised and nothing changes. Otherwise the drawn labels become the labels layer. |
| ImageClass.Image.SaveAnnotations | subsetmask/image_class.py:80-110 | Without a labels layer, ValueError is raised and nothing changes. Otherwise the masks are stored, the outlines are computed within the dims, and the metadata is annotated in place. The attribute is set only on success. While the metadata keeps the labels and image names it had at construction, with a unique index, the save raises no KeyError and leaves other images' rows alone. With an annotation column other than the image column, the save keeps that relation for the next call. |
| ImageClass.Image.RenameAnnotations | subsetmask/image_class.py:112-116 | Before a successful `save_annotations`, AttributeError is raised. Otherwise the column's values are replaced in the shared metadata. A column other than the image column keeps the labels and image names. |

## Left out

- Contour tracing (`cv2.findContours`) is a foreign library. It is the `Tracer` parameter. Only its staying inside the grid is assumed, where a lemma needs that.
- Polygon construction and the `within` predicate of `geopandas.sjoin` are foreign geometry code. They are the `Within` parameter, which always answers. The ValueError shapely's `Polygon` raises for an outline of one or two points is not modelled, so that error path of `get_cell_names` is missing. For invalid polygons and boundary points the parameter decides.
- Membership.MembersOf: the spatial join's result is taken to be in row order, with one entry per matching row.
- ImageClass.Image.SaveAnnotations: that the shared metadata keeps the image's labels and image names is a hypothesis of its guarantee for other images, not part of `Valid`. Code outside the class may change the shared DataFrame between calls, and an annotation column equal to the image column overwrites the image names.
- Rendering (`store_image_as_array`, `subsetmask/core/plotting.py`) is matplotlib. The rendered array is a parameter of `StoreImage`.
- napari drawing (`draw_labels`' viewer, `label_image`) blocks on a person. The drawn labels are a parameter of `DrawLabels`, which assumes them well shaped.
- File I/O is not modelled: `imwrite`, `cv2.imread`, the CSV writers, `make_mask_coords_dict` and `os.makedirs`. `SaveMasks` returns the (path, array) pairs it would write, and `GetMaskCoords` takes the decoded image as a parameter.
- The `.4f` formatting of `get_mask_coords` is not modelled. Values are exact reals, not floats, so rounding is not modelled either.
- Messages don't print.
- The CLI scripts under `software/` and the re-exports of `subsetmask/__init__.py` contain no logic beyond the modelled core.
- The read-only properties of `Image` are not modelled. `coords_dict` and `subset_cells` always raise AttributeError, because those attributes are never set.
- `__repr__` is not modelled.
- MaskCoords.MaskPoints: an empty mask is modelled as a ZeroDivisionError. That holds when the bounds are Python numbers; numpy scalar bounds would give infinities instead.
- Utils.GetImageDims: the coordinate columns are required to be numeric. Python would also compare strings, or raise TypeError for mixed columns.
- ImageClass.Image.constructor: the coordinates must also be numeric. The constructor's KeyErrors are modelled by `Create`.
- Tables.RowId: index labels are integers here. pandas allows any hashable label, and cell ids read from a CSV are often strings. The model only compares labels for equality, so no behaviour depends on their type.
- LabelSplit.SaveMasks: it takes the labels' array. `save_masks` on a None layer raises AttributeError at `labels_layer.data` (`subsetmask/core/main.py:40`), which is not modelled.
- ImageClass.Image.SaveAnnotations: the column name is always passed. The default `ann_col_name="label"` of `save_annotations` is not modelled.
- ImageClass.Lower: NaN bounds of an image with no rows are stood in for by 0.0. Nothing observable depends on them: no row can be tested (`EmptyTableNoMembers`).
- Tables.AssignRows: an id missing from the index raises KeyError, as current pandas does for list-like `.loc` keys. Enlargement and a new column through `.loc` are not modelled; the annotation column always exists at that point.
- Tables.ReplaceValue: `Series.replace` with a dict is modelled as one simultaneous replacement. Replacements are not chained.
- Utils.SaveAnnotatedMetadata: a list is taken as a list of strings; other list elements are not modelled.
- Utils.SaveAnnotatedMetadata: the CSV write with `index=True` is I/O; the model returns the table it would write.
- Integer widths are not modelled: `uint8` masks, and napari's label dtype, are unbounded integers here. Mask values are only ever 0 or 255, so nothing wraps.
- MaskCoords.MaskPoints: any array is accepted. OpenCV's `cv2.threshold` and `cv2.findContours` raise `cv2.error` for a mask that is not `uint8`, such as a bool or int64 array passed straight to `get_mask_coords_from_dict` (`subsetmask/image_helpers.py:133-141`). That error path is not modelled.
- Tables.Select: the KeyError lists a missing column once per request, so a column requested twice (such as `x_col == y_col`) is named twice. pandas' `df[cols]` names each missing label once. Only the error message differs.
