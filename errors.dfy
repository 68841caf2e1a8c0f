/** The exceptions that escape from the modelled operations: one constructor per
    `raise` site of the package or per failure of a library call it makes. */
module Errors {

  /** The Python exception class of an error. */
  datatype ExceptionClass =
    | ValueError
    | KeyError
    | TypeError
    | ZeroDivisionError
    | UnboundLocalError
    | AttributeError

  datatype Error =
    /** `labels_to_masks_dict` was given no labels layer. */
    | LabelsLayerIsNone
    /** A mask whose shape does not have two axes. */
    | MaskNot2D(name: string)
    /** A mask of width or height 0: the scale factor divides by zero. */
    | ZeroSizedMask
    /** `get_cell_names` found the x or y column missing. */
    | MissingCoordinateColumns(x: string, y: string)
    /** pandas `df[col]` / `df[[cols]]` with columns that do not exist. */
    | MissingColumns(columns: seq<string>)
    /** pandas `df.loc[ids, col] = v` with ids that are not in the index. */
    | MissingRowIds(ids: seq<int>)
    /** `rename_keys` was given mapping keys absent from the dictionary. */
    | MissingKeys(keys: seq<string>)
    /** `get_image_dims` on an image without rows reads an unbound local. */
    | NoRowsForImage
    /** `save_annotated_metadata`: `full_metadata` is not a bool. */
    | FullMetadataNotBool
    /** `save_annotated_metadata`: `keep_cols` is None although needed. */
    | KeepColsMissing
    /** `save_annotated_metadata`: the single column named is absent. */
    | KeepColNotFound(column: string)
    /** `save_annotated_metadata`: the listed columns that are absent. */
    | KeepColsNotFound(columns: seq<string>)
    /** `save_annotated_metadata`: `keep_cols` is neither a string nor a list. */
    | KeepColsBadType
    /** `draw_labels` before an image array was stored. */
    | NoImageArray
    /** `Image.save_annotations` before labels were drawn. */
    | NoLabelsDrawn
    /** `Image.rename_annotations` before `save_annotations` set the attribute. */
    | NoAnnotatedMetadata
  {
    /** The Python exception class raised for this error. */
    function Class(): ExceptionClass
    {
      match this
      case LabelsLayerIsNone => ValueError
      case MaskNot2D(_) => ValueError
      case ZeroSizedMask => ZeroDivisionError
      case MissingCoordinateColumns(_, _) => ValueError
      case MissingColumns(_) => KeyError
      case MissingRowIds(_) => KeyError
      case MissingKeys(_) => KeyError
      case NoRowsForImage => UnboundLocalError
      case FullMetadataNotBool => TypeError
      case KeepColsMissing => ValueError
      case KeepColNotFound(_) => ValueError
      case KeepColsNotFound(_) => ValueError
      case KeepColsBadType => TypeError
      case NoImageArray => ValueError
      case NoLabelsDrawn => ValueError
      case NoAnnotatedMetadata => AttributeError
    }
  }
}
