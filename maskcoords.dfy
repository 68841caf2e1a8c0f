/** From masks to calibrated region outlines: each mask is thresholded, its
    external contours are traced, and every contour point is mapped into data
    space. `get_mask_coords_from_dict` does this for a dictionary of masks;
    `get_mask_coords` does it for one mask and emits the points as CSV rows. */
module MaskCoords {
  import opened Wrappers
  import opened Errors
  import opened NdArrays
  import opened Calibration
  import opened Dicts

  /** One traced outline, in pixel coordinates. */
  type Contour = seq<Pixel>

  /** `cv2.findContours(binary, cv2.RETR_EXTERNAL, cv2.CHAIN_APPROX_SIMPLE)[0]`:
      OpenCV's boundary following is not modelled; the tracer is a parameter. */
  type Tracer = NdArray -> seq<Contour>

  /** All points of all contours, contour after contour. */
  function Flatten(cs: seq<Contour>): (ps: seq<Pixel>)
    ensures forall c, k :: 0 <= c < |cs| && 0 <= k < |cs[c]| ==> cs[c][k] in ps
  {
    if cs == [] then [] else Flatten(cs[..|cs| - 1]) + cs[|cs| - 1]
  }

  /** Flattening a concatenation of contour lists concatenates their points. */
  lemma {:induction false} FlattenAppend(cs: seq<Contour>, ds: seq<Contour>)
    ensures Flatten(cs + ds) == Flatten(cs) + Flatten(ds)
  {
    if ds != [] {
      var n := |ds| - 1;
      assert (cs + ds)[..|cs + ds| - 1] == cs + ds[..n];
      assert (cs + ds)[|cs + ds| - 1] == ds[n];
      FlattenAppend(cs, ds[..n]);
      assert Flatten(ds) == Flatten(ds[..n]) + ds[n];
    } else {
      assert cs + ds == cs;
    }
  }

  /** The points come contour by contour, in the order the tracer reports them:
      the first contour's points first, followed by those of the others. */
  lemma FlattenContourOrder(cs: seq<Contour>)
    requires cs != []
    ensures Flatten(cs) == cs[0] + Flatten(cs[1..])
  {
    assert cs == [cs[0]] + cs[1..];
    FlattenAppend([cs[0]], cs[1..]);
    assert Flatten([cs[0]]) == Flatten([]) + cs[0];
  }

  /** Every contour point lies on the grid of a mask of this size. */
  predicate ContoursInGrid(cs: seq<Contour>, height: nat, width: nat)
  {
    forall c, k :: 0 <= c < |cs| && 0 <= k < |cs[c]| ==>
      0 <= cs[c][k].x <= width && 0 <= cs[c][k].y <= height
  }

  lemma {:induction false} FlattenInGrid(cs: seq<Contour>, height: nat, width: nat)
    requires ContoursInGrid(cs, height, width)
    ensures forall k :: 0 <= k < |Flatten(cs)| ==>
      0 <= Flatten(cs)[k].x <= width && 0 <= Flatten(cs)[k].y <= height
  {
    if cs != [] {
      var n := |cs| - 1;
      assert ContoursInGrid(cs[..n], height, width);
      FlattenInGrid(cs[..n], height, width);
      var prev := Flatten(cs[..n]);
      forall k | 0 <= k < |Flatten(cs)|
        ensures 0 <= Flatten(cs)[k].x <= width && 0 <= Flatten(cs)[k].y <= height
      {
        if k >= |prev| {
          assert Flatten(cs)[k] == cs[n][k - |prev|];
        }
      }
    }
  }

  /** Each pixel mapped into data space, in order. */
  function ToDataSpaceAll(b: Bounds, height: nat, width: nat, ps: seq<Pixel>): seq<Coord>
    requires height > 0 && width > 0
  {
    seq(|ps|, k requires 0 <= k < |ps| => ToDataSpace(b, height, width, ps[k]))
  }

  /** The data-space points of one mask: it must be 2-D and of non-zero size;
      its thresholded image is traced and every point is mapped. */
  function MaskPoints(name: string, mask: NdArray, b: Bounds, trace: Tracer): (r: Result<seq<Coord>, Error>)
    ensures r.Err? <==> |mask.shape| != 2 || mask.shape[0] == 0 || mask.shape[1] == 0
    ensures |mask.shape| != 2 ==> r == Err(MaskNot2D(name))
    ensures |mask.shape| == 2 && r.Err? ==> r == Err(ZeroSizedMask)
    ensures r.Ok? ==> var ps := Flatten(trace(Binarize(mask)));
      |r.value| == |ps| &&
      forall k :: 0 <= k < |ps| ==> r.value[k] == ToDataSpace(b, mask.shape[0], mask.shape[1], ps[k])
  {
    if |mask.shape| != 2 then Err(MaskNot2D(name))
    else if mask.shape[1] == 0 || mask.shape[0] == 0 then Err(ZeroSizedMask)
    else Ok(ToDataSpaceAll(b, mask.shape[0], mask.shape[1], Flatten(trace(Binarize(mask)))))
  }

  /** The dictionary `get_mask_coords_from_dict` returns, or the error of the
      first mask, in dictionary order, that cannot be processed. */
  function CoordsFromDict(d: seq<(string, NdArray)>, b: Bounds, trace: Tracer): (r: Result<seq<(string, seq<Coord>)>, Error>)
    ensures r.Ok? ==> |r.value| == |d| && forall i :: 0 <= i < |d| ==> r.value[i].0 == d[i].0
  {
    if d == [] then Ok([])
    else
      match CoordsFromDict(d[..|d| - 1], b, trace)
      case Err(e) => Err(e)
      case Ok(prefix) =>
        match MaskPoints(d[|d| - 1].0, d[|d| - 1].1, b, trace)
        case Err(e) => Err(e)
        case Ok(points) => Ok(prefix + [(d[|d| - 1].0, points)])
  }

  /** On success the outlines dictionary has the masks' keys in the masks' order,
      and the entry of each key holds the points of that key's mask. */
  lemma {:induction false} CoordsFromDictKeys(d: seq<(string, NdArray)>, b: Bounds, trace: Tracer)
    requires CoordsFromDict(d, b, trace).Ok?
    ensures Keys(CoordsFromDict(d, b, trace).value) == Keys(d)
    ensures forall i :: 0 <= i < |d| ==>
      MaskPoints(d[i].0, d[i].1, b, trace).Ok? &&
      CoordsFromDict(d, b, trace).value[i] == (d[i].0, MaskPoints(d[i].0, d[i].1, b, trace).value)
  {
    if d != [] {
      var n := |d| - 1;
      CoordsFromDictKeys(d[..n], b, trace);
      var r := CoordsFromDict(d, b, trace).value;
      var prefix := CoordsFromDict(d[..n], b, trace).value;
      assert r == prefix + [(d[n].0, MaskPoints(d[n].0, d[n].1, b, trace).value)];
      assert Keys(r) == Keys(prefix) + [d[n].0];
      assert Keys(d) == Keys(d[..n]) + [d[n].0];
    }
  }

  /** The call fails exactly when some mask cannot be processed, and then with
      the error of the first such mask. */
  lemma {:induction false} CoordsFromDictFails(d: seq<(string, NdArray)>, b: Bounds, trace: Tracer)
    ensures CoordsFromDict(d, b, trace).Err? <==>
      exists i :: 0 <= i < |d| && MaskPoints(d[i].0, d[i].1, b, trace).Err?
    ensures CoordsFromDict(d, b, trace).Err? ==>
      exists i :: 0 <= i < |d| && MaskPoints(d[i].0, d[i].1, b, trace).Err? &&
        CoordsFromDict(d, b, trace).error == MaskPoints(d[i].0, d[i].1, b, trace).error &&
        forall j :: 0 <= j < i ==> MaskPoints(d[j].0, d[j].1, b, trace).Ok?
  {
    if d != [] {
      var n := |d| - 1;
      var init := d[..n];
      CoordsFromDictFails(init, b, trace);
      if CoordsFromDict(init, b, trace).Err? {
        var i :| 0 <= i < |init| && MaskPoints(init[i].0, init[i].1, b, trace).Err? &&
          CoordsFromDict(init, b, trace).error == MaskPoints(init[i].0, init[i].1, b, trace).error &&
          forall j :: 0 <= j < i ==> MaskPoints(init[j].0, init[j].1, b, trace).Ok?;
        assert init[i] == d[i];
        forall j | 0 <= j < i ensures MaskPoints(d[j].0, d[j].1, b, trace).Ok? {
          assert init[j] == d[j];
        }
        assert CoordsFromDict(d, b, trace) == CoordsFromDict(init, b, trace);
      } else {
        CoordsFromDictKeys(init, b, trace);
        forall j | 0 <= j < n ensures MaskPoints(d[j].0, d[j].1, b, trace).Ok? {
          assert init[j] == d[j];
        }
        if MaskPoints(d[n].0, d[n].1, b, trace).Err? {
          assert CoordsFromDict(d, b, trace) == Err(MaskPoints(d[n].0, d[n].1, b, trace).error);
        } else {
          assert CoordsFromDict(d, b, trace).Ok?;
        }
      }
    }
  }

  /** When the tracer keeps to the grid of each mask and the bounds are ordered,
      every point of every outline lies inside the calibration rectangle. */
  lemma CoordsFromDictInBounds(d: seq<(string, NdArray)>, b: Bounds, trace: Tracer)
    requires Ordered(b) && CoordsFromDict(d, b, trace).Ok?
    requires forall i :: 0 <= i < |d| && |d[i].1.shape| == 2 ==>
      ContoursInGrid(trace(Binarize(d[i].1)), d[i].1.shape[0], d[i].1.shape[1])
    ensures |CoordsFromDict(d, b, trace).value| == |d|
    ensures forall i, k :: 0 <= i < |d| && 0 <= k < |CoordsFromDict(d, b, trace).value[i].1| ==>
      InRect(b, CoordsFromDict(d, b, trace).value[i].1[k])
  {
    CoordsFromDictKeys(d, b, trace);
    var r := CoordsFromDict(d, b, trace).value;
    assert |Keys(r)| == |Keys(d)|;
    forall i, k | 0 <= i < |d| && 0 <= k < |r[i].1| ensures InRect(b, r[i].1[k]) {
      var mask := d[i].1;
      var h, w := mask.shape[0], mask.shape[1];
      var ps := Flatten(trace(Binarize(mask)));
      FlattenInGrid(trace(Binarize(mask)), h, w);
      assert r[i].1[k] == ToDataSpace(b, h, w, ps[k]);
      ToDataSpaceInBounds(b, h, w, ps[k]);
    }
  }

  lemma ToDataSpaceAllAppend(b: Bounds, height: nat, width: nat, ps: seq<Pixel>, p: Pixel)
    requires height > 0 && width > 0
    ensures ToDataSpaceAll(b, height, width, ps + [p]) ==
      ToDataSpaceAll(b, height, width, ps) + [ToDataSpace(b, height, width, p)]
  {
  }

  /** The nested loop over the contours of one mask and their points, shared by
      both functions: the points come out contour by contour, each mapped into
      data space. */
  method ScaleContours(b: Bounds, height: nat, width: nat, contours: seq<Contour>) returns (points: seq<Coord>)
    requires height > 0 && width > 0
    ensures points == ToDataSpaceAll(b, height, width, Flatten(contours))
  {
    var scaleX := ScaleX(b, width);
    var scaleY := ScaleY(b, height);
    points := [];
    for c := 0 to |contours|
      invariant points == ToDataSpaceAll(b, height, width, Flatten(contours[..c]))
    {
      assert contours[..c + 1][..c] == contours[..c];
      for j := 0 to |contours[c]|
        invariant points == ToDataSpaceAll(b, height, width, Flatten(contours[..c]) + contours[c][..j])
      {
        var p := contours[c][j];
        var xTransformed := p.x as real * scaleX + b.xMin;
        var yTransformed := b.yMax - p.y as real * scaleY;
        assert Flatten(contours[..c]) + contours[c][..j + 1] == (Flatten(contours[..c]) + contours[c][..j]) + [p];
        ToDataSpaceAllAppend(b, height, width, Flatten(contours[..c]) + contours[c][..j], p);
        assert Coord(xTransformed, yTransformed) == ToDataSpace(b, height, width, p);
        points := points + [Coord(xTransformed, yTransformed)];
      }
      assert contours[c][..|contours[c]|] == contours[c];
    }
    assert contours[..|contours|] == contours;
  }

  /** Once a prefix of the dictionary fails, the whole dictionary fails the same way. */
  lemma {:induction false} CoordsFromDictErrorSticks(d: seq<(string, NdArray)>, k: nat, b: Bounds, trace: Tracer)
    requires k <= |d| && CoordsFromDict(d[..k], b, trace).Err?
    ensures CoordsFromDict(d, b, trace) == CoordsFromDict(d[..k], b, trace)
    decreases |d| - k
  {
    if k < |d| {
      var n := |d| - 1;
      assert d[..n][..k] == d[..k];
      CoordsFromDictErrorSticks(d[..n], k, b, trace);
    } else {
      assert d[..k] == d;
    }
  }

  /** `get_mask_coords_from_dict(mask_dict, x_min, x_max, y_min, y_max)`. */
  method GetMaskCoordsFromDict(maskDict: seq<(string, NdArray)>, xMin: real, xMax: real, yMin: real, yMax: real, trace: Tracer)
    returns (r: Result<seq<(string, seq<Coord>)>, Error>)
    requires DistinctKeys(maskDict)
    ensures r == CoordsFromDict(maskDict, Bounds(xMin, xMax, yMin, yMax), trace)
  {
    var b := Bounds(xMin, xMax, yMin, yMax);
    var coords: seq<(string, seq<Coord>)> := [];
    for k := 0 to |maskDict|
      invariant CoordsFromDict(maskDict[..k], b, trace) == Ok(coords)
    {
      var (labelName, maskArray) := maskDict[k];
      assert maskDict[..k + 1][..k] == maskDict[..k];
      if |maskArray.shape| != 2 {
        CoordsFromDictErrorSticks(maskDict, k + 1, b, trace);
        return Err(MaskNot2D(labelName));
      }
      var height, width := maskArray.shape[0], maskArray.shape[1];
      if width == 0 || height == 0 {
        // `scale_x` or `scale_y` divides by zero
        CoordsFromDictErrorSticks(maskDict, k + 1, b, trace);
        return Err(ZeroSizedMask);
      }
      var binaryThresh := ThresholdBinaryInv(maskArray, 1, 255);
      assert binaryThresh == Binarize(maskArray);
      var contours := trace(binaryThresh);
      var points := ScaleContours(b, height, width, contours);
      assert MaskPoints(labelName, maskArray, b, trace) == Ok(points);
      CoordsFromDictKeys(maskDict[..k], b, trace);
      assert labelName !in Keys(coords);
      assert Put(coords, labelName, points) == coords + [(labelName, points)];
      coords := Put(coords, labelName, points);
    }
    assert maskDict[..|maskDict|] == maskDict;
    return Ok(coords);
  }

  /** The CSV that `get_mask_coords` writes: a header row and one row per point. */
  datatype CoordsCsv = CoordsCsv(header: seq<string>, rows: seq<Coord>)

  /** `get_mask_coords(mask_path, x_min, x_max, y_min, y_max, out)`, with the
      grayscale image read from `mask_path` given as `mask` and the file written
      to `out` returned. It applies the scale factors and inverted Y axis of
      `get_mask_coords_from_dict`: header `x, y`, then one row per contour point
      in contour order. */
  method GetMaskCoords(maskPath: string, mask: NdArray, xMin: real, xMax: real, yMin: real, yMax: real, trace: Tracer)
    returns (r: Result<CoordsCsv, Error>)
    ensures r.Ok? <==> MaskPoints(maskPath, mask, Bounds(xMin, xMax, yMin, yMax), trace).Ok?
    ensures r.Err? ==> r.error == MaskPoints(maskPath, mask, Bounds(xMin, xMax, yMin, yMax), trace).error
    ensures r.Ok? ==> r.value.header == ["x", "y"]
    ensures r.Ok? ==> r.value.rows == MaskPoints(maskPath, mask, Bounds(xMin, xMax, yMin, yMax), trace).value
  {
    if |mask.shape| != 2 {
      // `height, width = mask.shape` cannot unpack
      return Err(MaskNot2D(maskPath));
    }
    var height, width := mask.shape[0], mask.shape[1];
    if width == 0 || height == 0 {
      return Err(ZeroSizedMask);
    }
    var b := Bounds(xMin, xMax, yMin, yMax);
    var binary := ThresholdBinaryInv(mask, 1, 255);
    var contours := trace(binary);
    var rows := ScaleContours(b, height, width, contours);
    return Ok(CoordsCsv(["x", "y"], rows));
  }
}
