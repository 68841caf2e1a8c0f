/** Splitting a labelled raster into one mask per region: white (255) background,
    black (0) region. `labels_to_masks_dict` keeps the masks in a dictionary
    keyed `label_<l>`; `save_masks` writes the same masks to `label_<l>.png`. */
module LabelSplit {
  import opened Wrappers
  import opened Errors
  import opened NdArrays
  import opened Decimal
  import opened Dicts

  /** `f"label_{label}"`. */
  function LabelName(l: int): (n: string)
    ensures |n| > 6 && n[..6] == "label_"
    ensures n[6] == '-' <==> l < 0
    ensures l >= 0 ==> forall k :: 6 <= k < |n| ==> IsDigit(n[k])
    ensures n[6..] == IntToDecimal(l)
  {
    LeadingMinus(l);
    "label_" + IntToDecimal(l)
  }

  /** Distinct labels get distinct names. */
  lemma LabelNameInjective(a: int, b: int)
    requires LabelName(a) == LabelName(b)
    ensures a == b
  {
    assert LabelName(a)[6..] == IntToDecimal(a);
    assert LabelName(b)[6..] == IntToDecimal(b);
    IntToDecimalInjective(a, b);
  }

  /** The elements of `s` other than the background label 0, in order. */
  function NonZero(s: seq<int>): (r: seq<int>)
    ensures forall x :: x in r <==> x in s && x != 0
    ensures StrictlyIncreasing(s) ==> StrictlyIncreasing(r)
  {
    if s == [] then []
    else
      var init := s[..|s| - 1];
      var rest := NonZero(init);
      assert s == init + [s[|s| - 1]];
      assert StrictlyIncreasing(s) ==> StrictlyIncreasing(init) && forall x :: x in init ==> x < s[|s| - 1];
      assert forall i :: 0 <= i < |rest| ==> rest[i] in rest;
      if s[|s| - 1] != 0 then rest + [s[|s| - 1]] else rest
  }

  /** The labels that get a mask: the distinct non-zero values, ascending. */
  function Regions(labels: NdArray): (ls: seq<int>)
    ensures StrictlyIncreasing(ls)
    ensures forall l :: l in ls <==> l != 0 && l in labels.data
  {
    NonZero(Unique(labels.data))
  }

  /** One (name, mask) entry per label of `ls`, in the order of `ls`. */
  function MaskEntries(labels: NdArray, ls: seq<int>): seq<(string, NdArray)>
    requires WellShaped(labels)
  {
    seq(|ls|, i requires 0 <= i < |ls| => (LabelName(ls[i]), MaskFor(labels, ls[i])))
  }

  /** The dictionary `labels_to_masks_dict` builds from the labels' data. */
  function MasksDict(labels: NdArray): (d: seq<(string, NdArray)>)
    requires WellShaped(labels)
    ensures |d| == |Regions(labels)|
    ensures forall i :: 0 <= i < |d| ==>
      d[i].0 == LabelName(Regions(labels)[i]) && WellShaped(d[i].1) && d[i].1.shape == labels.shape
  {
    MaskEntries(labels, Regions(labels))
  }

  /** No two masks share a name. */
  lemma MaskEntriesDistinct(labels: NdArray, ls: seq<int>)
    requires WellShaped(labels) && StrictlyIncreasing(ls)
    ensures DistinctKeys(MaskEntries(labels, ls))
  {
    var d := MaskEntries(labels, ls);
    forall i, j | 0 <= i < j < |d| ensures d[i].0 != d[j].0 {
      if d[i].0 == d[j].0 {
        LabelNameInjective(ls[i], ls[j]);
      }
    }
  }

  /** No two masks of the dictionary share a name. */
  lemma MasksDictDistinct(labels: NdArray)
    requires WellShaped(labels)
    ensures DistinctKeys(MasksDict(labels))
  {
    MaskEntriesDistinct(labels, Regions(labels));
  }

  /** Exactly one key `label_<l>` per distinct non-zero label `l`, holding that
      label's mask; the background label 0 and absent labels get no key. */
  lemma MasksDictKeys(labels: NdArray)
    requires WellShaped(labels)
    ensures DistinctKeys(MasksDict(labels))
    ensures |MasksDict(labels)| == |Regions(labels)|
    ensures forall i :: 0 <= i < |MasksDict(labels)| ==>
      var l := Regions(labels)[i]; l != 0 && l in labels.data && MasksDict(labels)[i].0 == LabelName(l)
    ensures forall l :: Lookup(MasksDict(labels), LabelName(l)) == (if l != 0 && l in labels.data then Some(MaskFor(labels, l)) else None)
  {
    var ls, d := Regions(labels), MasksDict(labels);
    MaskEntriesDistinct(labels, ls);
    forall i | 0 <= i < |d| ensures ls[i] != 0 && ls[i] in labels.data && d[i].0 == LabelName(ls[i]) {
      assert ls[i] in ls;
    }
    forall l ensures Lookup(d, LabelName(l)) == if l != 0 && l in labels.data then Some(MaskFor(labels, l)) else None
    {
      MaskEntriesLookup(labels, ls, l);
    }
  }

  /** In the entries of distinct labels, `label_<l>` reads back the mask of `l`
      when `l` is listed, and nothing otherwise. */
  lemma MaskEntriesLookup(labels: NdArray, ls: seq<int>, l: int)
    requires WellShaped(labels) && StrictlyIncreasing(ls)
    ensures Lookup(MaskEntries(labels, ls), LabelName(l)) == if l in ls then Some(MaskFor(labels, l)) else None
  {
    var d := MaskEntries(labels, ls);
    MaskEntriesDistinct(labels, ls);
    if l in ls {
      var i :| 0 <= i < |ls| && ls[i] == l;
      LookupAt(d, i);
    } else {
      LookupFound(d, LabelName(l));
      if LabelName(l) in Keys(d) {
        var i :| 0 <= i < |d| && Keys(d)[i] == LabelName(l);
        LabelNameInjective(ls[i], l);
        assert false;
      }
    }
  }

  lemma MaskEntriesSnoc(labels: NdArray, ls: seq<int>, l: int)
    requires WellShaped(labels)
    ensures MaskEntries(labels, ls + [l]) == MaskEntries(labels, ls) + [(LabelName(l), MaskFor(labels, l))]
  {
  }

  /** The name of the next label of a strictly increasing list is not yet a key. */
  lemma NextNameIsFresh(labels: NdArray, u: seq<int>, k: nat)
    requires WellShaped(labels) && StrictlyIncreasing(u) && k < |u|
    ensures LabelName(u[k]) !in Keys(MaskEntries(labels, NonZero(u[..k])))
  {
    var ls := NonZero(u[..k]);
    var d := MaskEntries(labels, ls);
    if LabelName(u[k]) in Keys(d) {
      var i :| 0 <= i < |d| && Keys(d)[i] == LabelName(u[k]);
      assert ls[i] in ls;
      LabelNameInjective(ls[i], u[k]);
      assert false;
    }
  }

  /** `labels_to_masks_dict`: the layer's data split into one mask per label. */
  method LabelsToMasksDict(layer: Option<NdArray>) returns (r: Result<seq<(string, NdArray)>, Error>)
    requires layer.Some? ==> WellShaped(layer.value)
    ensures layer.None? ==> r == Err(LabelsLayerIsNone)
    ensures layer.Some? ==> r == Ok(MasksDict(layer.value))
  {
    if layer.None? {
      return Err(LabelsLayerIsNone);
    }
    var labels := layer.value;
    var unique := Unique(labels.data);
    var masks: seq<(string, NdArray)> := [];
    for k := 0 to |unique|
      invariant masks == MaskEntries(labels, NonZero(unique[..k]))
    {
      assert unique[..k + 1] == unique[..k] + [unique[k]];
      if unique[k] == 0 {
        continue;
      }
      var mask := Full(labels.shape, White);
      mask := SetWhere(mask, EqualTo(labels, unique[k]), Black);
      NextNameIsFresh(labels, unique, k);
      MaskEntriesSnoc(labels, NonZero(unique[..k]), unique[k]);
      masks := Put(masks, LabelName(unique[k]), mask);
    }
    assert unique[..|unique|] == unique;
    return Ok(masks);
  }

  /** `os.path.join(directory, name)` for a relative `name`. */
  function JoinPath(directory: string, name: string): (p: string)
    ensures directory == [] ==> p == name
    ensures |p| >= |directory| + |name| && p[..|directory|] == directory && p[|p| - |name|..] == name
    ensures directory != [] ==> |p| <= |directory| + |name| + 1 && p[|p| - |name| - 1] == '/'
    ensures directory != [] && directory[|directory| - 1] == '/' ==> |p| == |directory| + |name|
  {
    if directory == [] || directory[|directory| - 1] == '/' then directory + name
    else directory + "/" + name
  }

  /** The file each entry of a masks dictionary is written to, with its image. */
  function MaskFiles(outputDir: string, d: seq<(string, NdArray)>): seq<(string, NdArray)>
  {
    seq(|d|, i requires 0 <= i < |d| => (JoinPath(outputDir, d[i].0 + ".png"), d[i].1))
  }

  /** `save_masks` with the image writes as its output: the (path, image) pairs
      it passes to `imwrite`, in order. They are the masks of `labels_to_masks_dict`,
      each written to `<output_dir>/<key>.png`. */
  method SaveMasks(labels: NdArray, outputDir: string) returns (written: seq<(string, NdArray)>)
    requires WellShaped(labels)
    ensures |written| == |MasksDict(labels)|
    ensures forall i :: 0 <= i < |written| ==>
      written[i] == (JoinPath(outputDir, MasksDict(labels)[i].0 + ".png"), MasksDict(labels)[i].1)
  {
    var unique := Unique(labels.data);
    written := [];
    for k := 0 to |unique|
      invariant written == MaskFiles(outputDir, MaskEntries(labels, NonZero(unique[..k])))
    {
      assert unique[..k + 1][..k] == unique[..k];
      if unique[k] == 0 {
        continue;
      }
      var mask := Full(labels.shape, White);
      mask := SetWhere(mask, EqualTo(labels, unique[k]), Black);
      var maskPath := JoinPath(outputDir, "label_" + IntToDecimal(unique[k]) + ".png");
      assert NonZero(unique[..k + 1]) == NonZero(unique[..k]) + [unique[k]];
      MaskFilesSnoc(labels, outputDir, NonZero(unique[..k]), unique[k]);
      written := written + [(maskPath, mask)];
    }
    assert unique[..|unique|] == unique;
    MaskFilesAt(outputDir, MasksDict(labels));
  }

  /** Writing one more label's mask appends its file. */
  lemma MaskFilesSnoc(labels: NdArray, outputDir: string, ls: seq<int>, l: int)
    requires WellShaped(labels)
    ensures MaskFiles(outputDir, MaskEntries(labels, ls + [l])) ==
      MaskFiles(outputDir, MaskEntries(labels, ls)) + [(JoinPath(outputDir, "label_" + IntToDecimal(l) + ".png"), MaskFor(labels, l))]
  {
    MaskEntriesSnoc(labels, ls, l);
    var d := MaskEntries(labels, ls);
    var e := (LabelName(l), MaskFor(labels, l));
    assert e.0 + ".png" == "label_" + IntToDecimal(l) + ".png";
    assert MaskFiles(outputDir, d + [e]) == MaskFiles(outputDir, d) + [(JoinPath(outputDir, e.0 + ".png"), e.1)];
  }

  /** Each entry's file is `<output_dir>/<key>.png`, holding the entry's mask. */
  lemma MaskFilesAt(outputDir: string, d: seq<(string, NdArray)>)
    ensures |MaskFiles(outputDir, d)| == |d|
    ensures forall i :: 0 <= i < |d| ==> MaskFiles(outputDir, d)[i] == (JoinPath(outputDir, d[i].0 + ".png"), d[i].1)
  {
  }
}
