/** The numpy and OpenCV array operations the pipeline uses: arrays are a shape
    and their elements in row-major order, so every operation that numpy applies
    element by element is a map over the flat data. */
module NdArrays {

  datatype NdArray = NdArray(shape: seq<nat>, data: seq<int>)

  /** The number of elements an array of this shape holds. */
  function Product(shape: seq<nat>): nat
  {
    if shape == [] then 1 else shape[0] * Product(shape[1..])
  }

  /** Every numpy array holds exactly as many elements as its shape says. */
  predicate WellShaped(a: NdArray)
  {
    |a.data| == Product(a.shape)
  }

  /** Pixel values of the masks: white background, black region. */
  const White: int := 255
  const Black: int := 0

  /** `np.full(shape, v)`. */
  function Full(shape: seq<nat>, v: int): NdArray
  {
    NdArray(shape, seq(Product(shape), _ => v))
  }

  /** `a == v`: an element-wise Boolean array. */
  function EqualTo(a: NdArray, v: int): seq<bool>
  {
    seq(|a.data|, i requires 0 <= i < |a.data| => a.data[i] == v)
  }

  /** `a[where] = v`: writes `v` at every position where `where` holds. */
  function SetWhere(a: NdArray, where: seq<bool>, v: int): NdArray
    requires |where| == |a.data|
  {
    NdArray(a.shape, seq(|a.data|, i requires 0 <= i < |a.data| => if where[i] then v else a.data[i]))
  }

  /** The mask of one label: `np.full(labels.shape, 255)` followed by
      `mask[labels == label] = 0`. It has the labels' shape and is black exactly
      at that label's pixels and white everywhere else. */
  function MaskFor(labels: NdArray, lbl: int): (m: NdArray)
    requires WellShaped(labels)
    ensures WellShaped(m) && m.shape == labels.shape
    ensures forall i :: 0 <= i < |m.data| ==>
      m.data[i] == if labels.data[i] == lbl then Black else White
  {
    SetWhere(Full(labels.shape, White), EqualTo(labels, lbl), Black)
  }

  /** `cv2.threshold(a, thresh, maxval, cv2.THRESH_BINARY_INV)`: an element above
      `thresh` becomes 0, any other element becomes `maxval`. */
  function ThresholdBinaryInv(a: NdArray, thresh: int, maxval: int): (r: NdArray)
    ensures r.shape == a.shape && |r.data| == |a.data|
    ensures forall i :: 0 <= i < |r.data| ==> r.data[i] == 0 || r.data[i] == maxval
    ensures maxval != 0 ==> forall i :: 0 <= i < |r.data| ==> (r.data[i] == maxval <==> a.data[i] <= thresh)
  {
    NdArray(a.shape, seq(|a.data|, i requires 0 <= i < |a.data| => if a.data[i] > thresh then 0 else maxval))
  }

  /** The threshold the pipeline applies to a mask before tracing it. */
  function Binarize(mask: NdArray): (r: NdArray)
    ensures r.shape == mask.shape && |r.data| == |mask.data|
    ensures forall i :: 0 <= i < |r.data| ==>
      (r.data[i] == 255 <==> mask.data[i] <= 1) && (r.data[i] == 0 <==> mask.data[i] > 1)
  {
    ThresholdBinaryInv(mask, 1, 255)
  }

  /** Thresholding the mask of a label at 1 gives foreground (255) exactly at that
      label's pixels and background (0) everywhere else, with the labels' shape. */
  lemma BinarizedMaskIsLabel(labels: NdArray, lbl: int)
    requires WellShaped(labels)
    ensures Binarize(MaskFor(labels, lbl)).shape == labels.shape
    ensures |Binarize(MaskFor(labels, lbl)).data| == |labels.data|
    ensures forall i :: 0 <= i < |labels.data| ==>
      Binarize(MaskFor(labels, lbl)).data[i] == if labels.data[i] == lbl then 255 else 0
  {
  }

  predicate StrictlyIncreasing(s: seq<int>)
  {
    forall i, j :: 0 <= i < j < |s| ==> s[i] < s[j]
  }

  /** Inserts `x` into a strictly increasing sequence, unless it is already there. */
  function InsertSorted(x: int, s: seq<int>): (r: seq<int>)
    requires StrictlyIncreasing(s)
    ensures StrictlyIncreasing(r)
    ensures forall y :: y in r <==> y == x || y in s
  {
    if s == [] then [x]
    else if x < s[0] then [x] + s
    else if x == s[0] then s
    else
      var rest := InsertSorted(x, s[1..]);
      assert forall y :: y in rest ==> s[0] < y;
      var r := [s[0]] + rest;
      assert forall j :: 1 <= j < |r| ==> r[j] == rest[j - 1] && r[j] in rest;
      r
  }

  /** `np.unique(data)`: the distinct values of `data` in ascending order. */
  function Unique(data: seq<int>): (u: seq<int>)
    ensures StrictlyIncreasing(u)
    ensures forall x :: x in u <==> x in data
  {
    if data == [] then []
    else
      var init := data[..|data| - 1];
      assert data == init + [data[|data| - 1]];
      InsertSorted(data[|data| - 1], Unique(init))
  }
}
