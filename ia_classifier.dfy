/**
 * The identifiable-annotation (IA) post-filter of the IA classifier.
 *
 * Each annotation of an image is first screened by viewpoint and species;
 * the screened rows get the classifier's two softmax outputs; rows whose
 * positive score exceeds threshold_CA are measured by the log of their box
 * aspect ratio; rows inside the aspect-ratio window go through non-maximum
 * suppression image by image; and the NMS survivors alone are flagged as
 * census annotations.  Every row comes back in the final frame.
 *
 * The neural network is the parameter `classifier`, np.log on positive
 * ratios is the parameter `ln`, and torchvision's nms is the parameter `nms`.
 */
module IAClassifier {
  import opened Common
  import opened DataFrames

  // ----- numbers -----

  /** A float64 as numpy computes it: a finite number, an infinity, or NaN. */
  datatype Float = Finite(v: real) | PosInf | NegInf | NaN

  /** value >= bound under IEEE-754: false for NaN. */
  predicate Ge(a: Float, bound: real) {
    match a
    case Finite(v) => v >= bound
    case PosInf => true
    case NegInf => false
    case NaN => false
  }

  /** value <= bound under IEEE-754: false for NaN. */
  predicate Le(a: Float, bound: real) {
    match a
    case Finite(v) => v <= bound
    case PosInf => false
    case NegInf => true
    case NaN => false
  }

  /** value < bound under IEEE-754: false for NaN. */
  predicate Lt(a: Float, bound: real) {
    match a
    case Finite(v) => v < bound
    case PosInf => false
    case NegInf => true
    case NaN => false
  }

  /** value > bound under IEEE-754: false for NaN. */
  predicate Gt(a: Float, bound: real) {
    match a
    case Finite(v) => v > bound
    case PosInf => true
    case NegInf => false
    case NaN => false
  }

  lemma QuotientSign(w: real, h: real)
    requires h != 0.0
    ensures w / h > 0.0 <==> w * h > 0.0
    ensures w / h == 0.0 <==> w == 0.0
  {
    var q := w / h;
    assert w == q * h;
    if h > 0.0 {
      if q > 0.0 { assert q * h > 0.0; } else if q < 0.0 { assert q * h < 0.0; }
    } else {
      if q > 0.0 { assert q * h < 0.0; } else if q < 0.0 { assert q * h > 0.0; }
    }
  }

  /**
   * np.log(w / h): division by zero gives an infinity of the numerator's sign
   * (NaN for 0/0), the log of zero is -inf, and of a negative number NaN.
   */
  function LogAspect(w: real, h: real, ln: real -> real): (r: Float)
    ensures r.NaN? <==> (h == 0.0 && w <= 0.0) || w * h < 0.0
    ensures r.PosInf? <==> h == 0.0 && w > 0.0
    ensures r.NegInf? <==> h != 0.0 && w == 0.0
    ensures r.Finite? ==> w * h > 0.0 && r.v == ln(w / h)
  {
    if h == 0.0 then
      (if w > 0.0 then PosInf else NaN)
    else
      QuotientSign(w, h);
      if w / h > 0.0 then Finite(ln(w / h))
      else if w / h == 0.0 then NegInf
      else NaN
  }

  // ----- boxes -----

  /** xywh_to_xyxy: [x, y, w, h] to corners [x1, y1, x2, y2]; unpacking anything but four values raises. */
  function XywhToXyxy(bbox: seq<real>): (r: Option<seq<real>>)
    ensures r.Some? <==> |bbox| == 4
    ensures r.Some? ==> |r.value| == 4 && r.value[..2] == bbox[..2]
    ensures r.Some? ==> r.value[2] - r.value[0] == bbox[2] && r.value[3] - r.value[1] == bbox[3]
  {
    if |bbox| != 4 then None
    else Some([bbox[0], bbox[1], bbox[0] + bbox[2], bbox[1] + bbox[3]])
  }

  /** The inverse conversion, corners back to origin, width and height. */
  function XyxyToXywh(corners: seq<real>): (r: Option<seq<real>>)
    ensures r.Some? <==> |corners| == 4
  {
    if |corners| != 4 then None
    else Some([corners[0], corners[1], corners[2] - corners[0], corners[3] - corners[1]])
  }

  lemma BoxRoundTrip(bbox: seq<real>)
    requires |bbox| == 4
    ensures XywhToXyxy(bbox).Some?
    ensures XyxyToXywh(XywhToXyxy(bbox).value) == Some(bbox)
  {
    assert XyxyToXywh(XywhToXyxy(bbox).value).value == bbox;
  }

  /** A box of non-negative size has its corners in order. */
  lemma CornersOrdered(bbox: seq<real>)
    requires |bbox| == 4 && bbox[2] >= 0.0 && bbox[3] >= 0.0
    ensures XywhToXyxy(bbox).Some?
    ensures XywhToXyxy(bbox).value[0] <= XywhToXyxy(bbox).value[2]
    ensures XywhToXyxy(bbox).value[1] <= XywhToXyxy(bbox).value[3]
  {
  }

  // ----- frames -----

  /** One annotation record; annotSpecies is the value of the annot_species column. */
  datatype Annotation = Annotation(
    uuid: string, imagePath: string, bbox: seq<real>, viewpoint: string, annotSpecies: string)

  /** A data frame of annotations and the names of the columns it carries. */
  datatype Frame = Frame(columns: set<string>, rows: seq<Annotation>)

  datatype Config = Config(
    viewpoints: seq<string>, species: string,
    thresholdCA: real, minLogAR: real, maxLogAR: real, nmsThreshold: real)

  datatype FilterError = KeyError(column: string)

  /** The column the species test reads. */
  const SpeciesColumn := "annot_species"
  /** The key the species test looks for. */
  const SpeciesKeyAsWritten := "annot species"

  /** expand_bbox_columns splits every box into exactly four columns. */
  predicate BoxesHaveFourValues(rows: seq<Annotation>) {
    forall a :: a in rows ==> |a.bbox| == 4
  }

  /** The viewpoint is accepted and, if the frame has the species column, so is the species. */
  predicate Accepted(columns: set<string>, a: Annotation, config: Config) {
    a.viewpoint in config.viewpoints && (SpeciesColumn !in columns || a.annotSpecies == config.species)
  }

  function AcceptMask(columns: set<string>, config: Config): Annotation -> bool {
    (a: Annotation) => Accepted(columns, a, config)
  }

  function ViewpointMask(config: Config): Annotation -> bool {
    (a: Annotation) => a.viewpoint in config.viewpoints
  }

  /** filter_dataframe with the species test keyed on the column it reads: (filtered_test, filtered_out). */
  function FilterDataframe(frame: Frame, config: Config): (r: Split<Annotation>)
    ensures multiset(r.kept) + multiset(r.dropped) == multiset(frame.rows)
    ensures forall a :: a in r.kept <==> a in frame.rows && Accepted(frame.columns, a, config)
    ensures forall a :: a in r.dropped <==> a in frame.rows && !Accepted(frame.columns, a, config)
  {
    SplitBy(frame.rows, AcceptMask(frame.columns, config))
  }

  /**
   * filter_dataframe as written: the species test is switched on by a key
   * with a space but reads the column with an underscore.
   */
  function FilterDataframeAsWritten(frame: Frame, config: Config): (r: Result<Split<Annotation>, FilterError>)
    ensures r.Err? <==> SpeciesKeyAsWritten in frame.columns && SpeciesColumn !in frame.columns
    ensures SpeciesKeyAsWritten in frame.columns && SpeciesColumn in frame.columns ==>
              r == Ok(FilterDataframe(frame, config))
    ensures r.Ok? ==> multiset(r.value.kept) + multiset(r.value.dropped) == multiset(frame.rows)
  {
    if SpeciesKeyAsWritten in frame.columns then
      if SpeciesColumn in frame.columns then Ok(SplitBy(frame.rows, AcceptMask(frame.columns, config)))
      else Err(KeyError(SpeciesColumn))
    else
      Ok(SplitBy(frame.rows, ViewpointMask(config)))
  }

  /** Without the spaced key the species column is never consulted, even when the frame has it. */
  lemma AsWrittenIgnoresSpecies(frame: Frame, config: Config)
    requires SpeciesKeyAsWritten !in frame.columns
    ensures FilterDataframeAsWritten(frame, config) ==
            Ok(FilterDataframe(Frame(frame.columns - {SpeciesColumn}, frame.rows), config))
  {
    var columns := frame.columns - {SpeciesColumn};
    FilterAgree(frame.rows, ViewpointMask(config), AcceptMask(columns, config));
    FilterAgree(frame.rows, Not(ViewpointMask(config)), Not(AcceptMask(columns, config)));
  }

  /** A row of the wrong species passes the filter as written and is screened out by the intended one. */
  lemma SpeciesKeyMismatch()
    ensures var a := Annotation("a1", "img1.jpg", [0.0, 0.0, 10.0, 10.0], "left", "zebra_plains");
            var config := Config(["left"], "zebra_grevys", 0.5, -1.0, 1.0, 0.5);
            var frame := Frame({SpeciesColumn}, [a]);
            FilterDataframeAsWritten(frame, config) == Ok(Split([a], [])) &&
            FilterDataframe(frame, config) == Split([], [a])
  {
    var a := Annotation("a1", "img1.jpg", [0.0, 0.0, 10.0, 10.0], "left", "zebra_plains");
    var config := Config(["left"], "zebra_grevys", 0.5, -1.0, 1.0, 0.5);
    var frame := Frame({SpeciesColumn}, [a]);
    assert SpeciesKeyAsWritten != SpeciesColumn by {
      assert SpeciesKeyAsWritten[5] != SpeciesColumn[5];
    }
    assert [a][1..] == [];
    assert ViewpointMask(config)(a) && !AcceptMask(frame.columns, config)(a);
    assert Filter([a], ViewpointMask(config)) == [a];
    assert Filter([a], Not(ViewpointMask(config))) == [];
    assert Filter([a], AcceptMask(frame.columns, config)) == [];
    assert Filter([a], Not(AcceptMask(frame.columns, config))) == [a];
  }

  // ----- scores -----

  /** A screened row with the classifier's softmax outputs for classes 0 and 1. */
  datatype Scored = Scored(ann: Annotation, softmax0: real, softmax1: real)

  /** filtered_test["softmax_output_0"] and ["softmax_output_1"]: one pair of scores per screened row. */
  function ScoreAll(rows: seq<Annotation>, classifier: Annotation -> (real, real)): (r: seq<Scored>)
    ensures |r| == |rows|
    ensures forall i :: 0 <= i < |rows| ==> r[i].ann == rows[i]
    ensures forall s :: s in r ==> s.ann in rows && s.softmax0 == classifier(s.ann).0 && s.softmax1 == classifier(s.ann).1
  {
    seq(|rows|, i requires 0 <= i < |rows| => Scored(rows[i], classifier(rows[i]).0, classifier(rows[i]).1))
  }

  function AboveMask(threshold: real): Scored -> bool {
    (s: Scored) => s.softmax1 > threshold
  }

  /** Step 1: (above_threshold, below_threshold). */
  function SplitByThreshold(rows: seq<Scored>, threshold: real): (r: Split<Scored>)
    ensures multiset(r.kept) + multiset(r.dropped) == multiset(rows)
    ensures forall s :: s in r.kept <==> s in rows && s.softmax1 > threshold
    ensures forall s :: s in r.dropped <==> s in rows && s.softmax1 <= threshold
  {
    SplitBy(rows, AboveMask(threshold))
  }

  // ----- aspect ratio -----

  /** A row above the score threshold with its log aspect ratio. */
  datatype Measured = Measured(scored: Scored, logAR: Float)

  function ImageOf(m: Measured): string {
    m.scored.ann.imagePath
  }

  /** np.log(bbox w / bbox h) of one annotation. */
  function LogAspectOf(a: Annotation, ln: real -> real): Float
    requires |a.bbox| == 4
  {
    LogAspect(a.bbox[2], a.bbox[3], ln)
  }

  /** above_threshold["log_AR"]. */
  function MeasureAll(rows: seq<Scored>, ln: real -> real): (r: seq<Measured>)
    requires forall s :: s in rows ==> |s.ann.bbox| == 4
    ensures |r| == |rows|
    ensures forall i :: 0 <= i < |rows| ==> r[i].scored == rows[i]
    ensures forall m :: m in r ==> m.scored in rows && m.logAR == LogAspectOf(m.scored.ann, ln)
  {
    seq(|rows|, i requires 0 <= i < |rows| => Measured(rows[i], LogAspectOf(rows[i].ann, ln)))
  }

  predicate InWindow(l: Float, config: Config) {
    Ge(l, config.minLogAR) && Le(l, config.maxLogAR)
  }

  function WindowMask(config: Config): Measured -> bool {
    (m: Measured) => InWindow(m.logAR, config)
  }

  function OutsideMask(config: Config): Measured -> bool {
    (m: Measured) => Lt(m.logAR, config.minLogAR) || Gt(m.logAR, config.maxLogAR)
  }

  /** Step 2 as written: (ar_filtered, ar_filtered_out) selected by two separate masks. */
  function SplitAspectRatioAsWritten(rows: seq<Measured>, config: Config): (r: Split<Measured>)
    ensures forall m :: m in r.kept <==> m in rows && InWindow(m.logAR, config)
    ensures forall m :: m in r.dropped <==> m in rows && (Lt(m.logAR, config.minLogAR) || Gt(m.logAR, config.maxLogAR))
    ensures forall m :: m in rows && m.logAR.NaN? ==> m !in r.kept && m !in r.dropped
  {
    Split(Filter(rows, WindowMask(config)), Filter(rows, OutsideMask(config)))
  }

  /** Step 2 with ar_filtered_out the complement of ar_filtered. */
  function SplitAspectRatio(rows: seq<Measured>, config: Config): (r: Split<Measured>)
    ensures multiset(r.kept) + multiset(r.dropped) == multiset(rows)
    ensures forall m :: m in r.kept <==> m in rows && InWindow(m.logAR, config)
    ensures forall m :: m in r.dropped <==> m in rows && !InWindow(m.logAR, config)
  {
    SplitBy(rows, WindowMask(config))
  }

  /** When no ratio is NaN the two masks are complementary and the split as written is the intended one. */
  lemma AspectRatioFixAgrees(rows: seq<Measured>, config: Config)
    requires forall m :: m in rows ==> !m.logAR.NaN?
    ensures SplitAspectRatioAsWritten(rows, config) == SplitAspectRatio(rows, config)
  {
    FilterAgree(rows, OutsideMask(config), Not(WindowMask(config)));
  }

  /** A zero-sized box has a NaN ratio and the split as written loses its row. */
  lemma AspectRatioDropsNaN(s: Scored, ln: real -> real, config: Config)
    requires s.ann.bbox == [0.0, 0.0, 0.0, 0.0]
    ensures var m := Measured(s, LogAspectOf(s.ann, ln));
            SplitAspectRatioAsWritten([m], config) == Split([], []) &&
            SplitAspectRatio([m], config) == Split([], [m])
  {
    var m := Measured(s, LogAspectOf(s.ann, ln));
    assert m.logAR == NaN;
    assert [m][1..] == [];
  }

  /** A ratio is inside the window, strictly outside it, or NaN, and exactly one of these. */
  lemma WindowTrichotomy(l: Float, config: Config)
    ensures InWindow(l, config) || Lt(l, config.minLogAR) || Gt(l, config.maxLogAR) || l.NaN?
    ensures InWindow(l, config) ==> !Lt(l, config.minLogAR) && !Gt(l, config.maxLogAR) && !l.NaN?
    ensures l.NaN? ==> !Lt(l, config.minLogAR) && !Gt(l, config.maxLogAR)
  {
  }

  function NaNMask(): Measured -> bool {
    (m: Measured) => m.logAR.NaN?
  }

  /** Every row satisfies exactly one of the window mask, the out-of-window mask and the NaN mask. */
  lemma ThreeAspectMasks(rows: seq<Measured>, config: Config)
    ensures forall m :: m in rows ==>
              var w, o, n := WindowMask(config)(m), OutsideMask(config)(m), NaNMask()(m);
              (w || o || n) && !(w && o) && !(w && n) && !(o && n)
  {
    forall m | m in rows
      ensures var w, o, n := WindowMask(config)(m), OutsideMask(config)(m), NaNMask()(m);
              (w || o || n) && !(w && o) && !(w && n) && !(o && n)
    {
      WindowTrichotomy(m.logAR, config);
    }
  }

  /**
   * The split as written keeps the same ar_filtered as the intended one; its
   * ar_filtered_out and the NaN-ratio rows together are the intended ar_filtered_out.
   */
  lemma OutsidePlusNaN(rows: seq<Measured>, config: Config)
    ensures SplitAspectRatioAsWritten(rows, config).kept == SplitAspectRatio(rows, config).kept
    ensures multiset(SplitAspectRatioAsWritten(rows, config).dropped) + multiset(Filter(rows, NaNMask()))
            == multiset(SplitAspectRatio(rows, config).dropped)
  {
    var window, outside, nan := WindowMask(config), OutsideMask(config), NaNMask();
    ThreeAspectMasks(rows, config);
    FilterSplit3(rows, window, outside, nan);
    var split := SplitAspectRatio(rows, config);
    var asWritten := SplitAspectRatioAsWritten(rows, config);
    assert split.kept == asWritten.kept == Filter(rows, window);
    assert asWritten.dropped == Filter(rows, outside);
    var a, b, c, d := multiset(split.kept), multiset(asWritten.dropped), multiset(Filter(rows, nan)), multiset(split.dropped);
    assert a + (b + c) == a + d;
    MultisetCancel(a, b + c, d);
  }

  // ----- non-maximum suppression per image -----

  /** The rows whose image is one of paths, in frame order. */
  function RowsOfImages(rows: seq<Measured>, paths: seq<string>): (r: seq<Measured>)
    ensures forall m :: m in r ==> m in rows && ImageOf(m) in paths
    decreases |rows|
  {
    if rows == [] then []
    else (if ImageOf(rows[0]) in paths then [rows[0]] else []) + RowsOfImages(rows[1..], paths)
  }

  lemma {:induction false} RowsOfNoImage(rows: seq<Measured>)
    ensures RowsOfImages(rows, []) == []
    decreases |rows|
  {
    if rows != [] {
      RowsOfNoImage(rows[1..]);
    }
  }

  /** Adding one more image adds exactly that image's group. */
  lemma {:induction false} RowsOfImagesStep(rows: seq<Measured>, paths: seq<string>, p: string)
    requires p !in paths
    ensures multiset(RowsOfImages(rows, paths + [p])) ==
            multiset(RowsOfImages(rows, paths)) + multiset(RowsOfImages(rows, [p]))
    decreases |rows|
  {
    if rows != [] {
      RowsOfImagesStep(rows[1..], paths, p);
    }
  }

  /** The groups of all images of the frame cover the frame. */
  lemma {:induction false} RowsOfAllImages(rows: seq<Measured>, paths: seq<string>)
    requires forall m :: m in rows ==> ImageOf(m) in paths
    ensures RowsOfImages(rows, paths) == rows
    decreases |rows|
  {
    if rows != [] {
      assert rows[0] in rows;
      RowsOfAllImages(rows[1..], paths);
      assert rows == [rows[0]] + rows[1..];
    }
  }

  /** No image path occurs twice. */
  predicate Distinct(paths: seq<string>) {
    forall i, j :: 0 <= i < j < |paths| ==> paths[i] != paths[j]
  }

  /** groupby("image_path"): every image once, in the order of first appearance. */
  function ImagePaths(rows: seq<Measured>): (r: seq<string>)
    ensures Distinct(r)
    ensures forall m :: m in rows ==> ImageOf(m) in r
    decreases |rows|
  {
    if rows == [] then []
    else
      var ps := ImagePaths(rows[..|rows| - 1]);
      var last := ImageOf(rows[|rows| - 1]);
      assert rows == rows[..|rows| - 1] + [rows[|rows| - 1]];
      if last in ps then ps else ps + [last]
  }

  /** apply_nms with the kept positions of the group given: (result_df, removed). */
  function NmsSplit(group: seq<Measured>, keep: set<nat>): Split<Measured>
    decreases |group|
  {
    if group == [] then Split([], [])
    else
      var s := NmsSplit(group[..|group| - 1], keep);
      if |group| - 1 in keep then Split(s.kept + [group[|group| - 1]], s.dropped)
      else Split(s.kept, s.dropped + [group[|group| - 1]])
  }

  /** The kept and removed rows of a group together are the group; kept rows sit at kept positions. */
  lemma {:induction false} NmsSplitPartition(group: seq<Measured>, keep: set<nat>)
    ensures multiset(NmsSplit(group, keep).kept) + multiset(NmsSplit(group, keep).dropped) == multiset(group)
    ensures forall m :: m in NmsSplit(group, keep).kept ==>
              exists i :: 0 <= i < |group| && i in keep && group[i] == m
    ensures forall m :: m in NmsSplit(group, keep).dropped ==>
              exists i :: 0 <= i < |group| && i !in keep && group[i] == m
    decreases |group|
  {
    if group != [] {
      var n := |group| - 1;
      var front := group[..n];
      NmsSplitPartition(front, keep);
      assert group == front + [group[n]];
      var s := NmsSplit(front, keep);
      var r := NmsSplit(group, keep);
      forall m | m in r.kept
        ensures exists i :: 0 <= i < |group| && i in keep && group[i] == m
      {
        if m in s.kept {
          var i :| 0 <= i < |front| && i in keep && front[i] == m;
          assert group[i] == m;
        } else {
          assert group[n] == m;
        }
      }
      forall m | m in r.dropped
        ensures exists i :: 0 <= i < |group| && i !in keep && group[i] == m
      {
        if m in s.dropped {
          var i :| 0 <= i < |front| && i !in keep && front[i] == m;
          assert group[i] == m;
        } else {
          assert group[n] == m;
        }
      }
    }
  }

  /** m sits at a position that nms keeps in the group of its image. */
  ghost predicate SurvivesNms(rows: seq<Measured>, m: Measured, threshold: real, nms: (seq<Measured>, real) -> set<nat>) {
    var group := RowsOfImages(rows, [ImageOf(m)]);
    exists i :: 0 <= i < |group| && i in nms(group, threshold) && group[i] == m
  }

  /** m sits at a position that nms drops in the group of its image. */
  ghost predicate RemovedByNms(rows: seq<Measured>, m: Measured, threshold: real, nms: (seq<Measured>, real) -> set<nat>) {
    var group := RowsOfImages(rows, [ImageOf(m)]);
    exists i :: 0 <= i < |group| && i !in nms(group, threshold) && group[i] == m
  }

  ghost predicate AllSurvive(rows: seq<Measured>, part: seq<Measured>, threshold: real, nms: (seq<Measured>, real) -> set<nat>) {
    forall m :: m in part ==> SurvivesNms(rows, m, threshold, nms)
  }

  ghost predicate AllRemoved(rows: seq<Measured>, part: seq<Measured>, threshold: real, nms: (seq<Measured>, real) -> set<nat>) {
    forall m :: m in part ==> RemovedByNms(rows, m, threshold, nms)
  }

  lemma AppendGroup(rows: seq<Measured>, threshold: real, nms: (seq<Measured>, real) -> set<nat>,
                    kept: seq<Measured>, removed: seq<Measured>, result: Split<Measured>)
    requires AllSurvive(rows, kept, threshold, nms) && AllSurvive(rows, result.kept, threshold, nms)
    requires AllRemoved(rows, removed, threshold, nms) && AllRemoved(rows, result.dropped, threshold, nms)
    ensures AllSurvive(rows, kept + result.kept, threshold, nms)
    ensures AllRemoved(rows, removed + result.dropped, threshold, nms)
  {
  }

  /** One image's pass through apply_nms: its rows split into survivors and removed rows. */
  lemma NmsGroup(rows: seq<Measured>, path: string, threshold: real, nms: (seq<Measured>, real) -> set<nat>)
    ensures var group := RowsOfImages(rows, [path]);
            var result := NmsSplit(group, nms(group, threshold));
            && multiset(result.kept) + multiset(result.dropped) == multiset(group)
            && AllSurvive(rows, result.kept, threshold, nms)
            && AllRemoved(rows, result.dropped, threshold, nms)
  {
    var group := RowsOfImages(rows, [path]);
    var keep := nms(group, threshold);
    var result := NmsSplit(group, keep);
    NmsSplitPartition(group, keep);
    forall m | m in result.kept
      ensures SurvivesNms(rows, m, threshold, nms)
    {
      var j :| 0 <= j < |group| && j in keep && group[j] == m;
      assert m in group;
    }
    forall m | m in result.dropped
      ensures RemovedByNms(rows, m, threshold, nms)
    {
      var j :| 0 <= j < |group| && j !in keep && group[j] == m;
      assert m in group;
    }
  }

  /** all_results and nms_filtered_out after the groups of the given images, in that order. */
  function NmsImages(rows: seq<Measured>, paths: seq<string>, threshold: real,
                     nms: (seq<Measured>, real) -> set<nat>): Split<Measured>
    decreases |paths|
  {
    if paths == [] then Split([], [])
    else
      var before := NmsImages(rows, paths[..|paths| - 1], threshold, nms);
      var group := RowsOfImages(rows, [paths[|paths| - 1]]);
      var result := NmsSplit(group, nms(group, threshold));
      Split(before.kept + result.kept, before.dropped + result.dropped)
  }

  /** After the groups of the given images: survivors and removed rows make up those groups, each as NMS decided. */
  ghost predicate NmsPartitioned(rows: seq<Measured>, paths: seq<string>, threshold: real,
                                 nms: (seq<Measured>, real) -> set<nat>)
  {
    var r := NmsImages(rows, paths, threshold, nms);
    && multiset(r.kept) + multiset(r.dropped) == multiset(RowsOfImages(rows, paths))
    && AllSurvive(rows, r.kept, threshold, nms)
    && AllRemoved(rows, r.dropped, threshold, nms)
  }

  /** Over distinct images, the survivors and the removed rows together are the rows of those images. */
  lemma {:induction false} NmsImagesPartition(rows: seq<Measured>, paths: seq<string>, threshold: real,
                                              nms: (seq<Measured>, real) -> set<nat>)
    requires Distinct(paths)
    ensures NmsPartitioned(rows, paths, threshold, nms)
    decreases |paths|
  {
    if paths == [] {
      RowsOfNoImage(rows);
    } else {
      DistinctLast(paths);
      NmsImagesPartition(rows, paths[..|paths| - 1], threshold, nms);
      NmsImagesStep(rows, paths, threshold, nms);
    }
  }

  /** Of distinct paths, the last is new to the others, which stay distinct. */
  lemma DistinctLast(paths: seq<string>)
    requires Distinct(paths) && paths != []
    ensures paths[|paths| - 1] !in paths[..|paths| - 1]
    ensures Distinct(paths[..|paths| - 1])
  {
    var n := |paths| - 1;
    forall k | 0 <= k < n ensures paths[..n][k] != paths[n] {
      assert paths[..n][k] == paths[k];
    }
  }

  /** The group of one more, new, image extends the partition. */
  lemma NmsImagesStep(rows: seq<Measured>, paths: seq<string>, threshold: real,
                      nms: (seq<Measured>, real) -> set<nat>)
    requires paths != [] && paths[|paths| - 1] !in paths[..|paths| - 1]
    requires NmsPartitioned(rows, paths[..|paths| - 1], threshold, nms)
    ensures NmsPartitioned(rows, paths, threshold, nms)
  {
    var front, path := paths[..|paths| - 1], paths[|paths| - 1];
    assert paths == front + [path];
    var before := NmsImages(rows, front, threshold, nms);
    var group := RowsOfImages(rows, [path]);
    var result := NmsSplit(group, nms(group, threshold));
    NmsGroup(rows, path, threshold, nms);
    AppendGroup(rows, threshold, nms, before.kept, before.dropped, result);
    RowsOfImagesStep(rows, front, path);
  }

  /** Step 3: the loop over image groups collecting all_results and nms_filtered_out. */
  method ApplyNmsPerImage(rows: seq<Measured>, threshold: real, nms: (seq<Measured>, real) -> set<nat>)
    returns (kept: seq<Measured>, removed: seq<Measured>)
    ensures multiset(kept) + multiset(removed) == multiset(rows)
    ensures AllSurvive(rows, kept, threshold, nms)
    ensures AllRemoved(rows, removed, threshold, nms)
  {
    var paths := ImagePaths(rows);
    kept, removed := [], [];
    for i := 0 to |paths|
      invariant Split(kept, removed) == NmsImages(rows, paths[..i], threshold, nms)
    {
      assert paths[..i + 1][..i] == paths[..i];
      var group := RowsOfImages(rows, [paths[i]]);
      var result := NmsSplit(group, nms(group, threshold));
      kept := kept + result.kept;
      removed := removed + result.dropped;
    }
    assert paths[..|paths|] == paths;
    NmsAllImages(rows, threshold, nms);
  }

  /** After every image's group, the survivors and the removed rows make up the whole frame. */
  lemma NmsAllImages(rows: seq<Measured>, threshold: real, nms: (seq<Measured>, real) -> set<nat>)
    ensures var r := NmsImages(rows, ImagePaths(rows), threshold, nms);
            && multiset(r.kept) + multiset(r.dropped) == multiset(rows)
            && AllSurvive(rows, r.kept, threshold, nms)
            && AllRemoved(rows, r.dropped, threshold, nms)
  {
    var paths := ImagePaths(rows);
    NmsImagesPartition(rows, paths, threshold, nms);
    RowsOfAllImages(rows, paths);
  }

  // ----- the pipeline -----

  /** A row of final_df: softmax_output_0, CA_score (renamed softmax_output_1), log_AR, annotations_census; None is NaN. */
  datatype CensusRow = CensusRow(
    ann: Annotation, softmax0: Option<real>, caScore: Option<real>, logAR: Option<Float>, census: bool)

  function CensusAnn(f: CensusRow): Annotation { f.ann }
  function ScoredAnn(s: Scored): Annotation { s.ann }
  function MeasuredAnn(m: Measured): Annotation { m.scored.ann }

  function MarkCensus(m: Measured): CensusRow {
    CensusRow(m.scored.ann, Some(m.scored.softmax0), Some(m.scored.softmax1), Some(m.logAR), true)
  }

  function MarkNotCensus(m: Measured): CensusRow {
    CensusRow(m.scored.ann, Some(m.scored.softmax0), Some(m.scored.softmax1), Some(m.logAR), false)
  }

  function BelowThreshold(s: Scored): CensusRow {
    CensusRow(s.ann, Some(s.softmax0), Some(s.softmax1), None, false)
  }

  function Unscored(a: Annotation): CensusRow {
    CensusRow(a, None, None, None, false)
  }

  /** Steps 0 and 1 together: the screened rows, scored and cut at threshold_CA. */
  function ThresholdStage(frame: Frame, config: Config, classifier: Annotation -> (real, real)): (r: Split<Scored>)
    ensures forall s :: s in r.kept ==>
              s.ann in frame.rows && Accepted(frame.columns, s.ann, config) &&
              s.softmax0 == classifier(s.ann).0 && s.softmax1 == classifier(s.ann).1 && s.softmax1 > config.thresholdCA
    ensures forall s :: s in r.dropped ==>
              s.ann in frame.rows && Accepted(frame.columns, s.ann, config) &&
              s.softmax0 == classifier(s.ann).0 && s.softmax1 == classifier(s.ann).1 && s.softmax1 <= config.thresholdCA
  {
    SplitByThreshold(ScoreAll(FilterDataframe(frame, config).kept, classifier), config.thresholdCA)
  }

  /** The rows above threshold with log_AR. */
  function MeasuredStage(frame: Frame, config: Config, classifier: Annotation -> (real, real), ln: real -> real): (r: seq<Measured>)
    requires BoxesHaveFourValues(frame.rows)
    ensures forall m :: m in r ==>
              m.scored in ThresholdStage(frame, config, classifier).kept &&
              |m.scored.ann.bbox| == 4 && m.logAR == LogAspectOf(m.scored.ann, ln)
  {
    MeasureAll(ThresholdStage(frame, config, classifier).kept, ln)
  }

  /** ar_filtered and ar_filtered_out. */
  function AspectStage(frame: Frame, config: Config, classifier: Annotation -> (real, real), ln: real -> real): Split<Measured>
    requires BoxesHaveFourValues(frame.rows)
  {
    SplitAspectRatio(MeasuredStage(frame, config, classifier, ln), config)
  }

  /** final_df: NMS survivors, below-threshold, outside the window, NMS-removed, screened out. */
  function Assemble(frame: Frame, config: Config, classifier: Annotation -> (real, real), ln: real -> real,
                    kept: seq<Measured>, removed: seq<Measured>): seq<CensusRow>
    requires BoxesHaveFourValues(frame.rows)
  {
    MapSeq(MarkCensus, kept)
    + MapSeq(BelowThreshold, ThresholdStage(frame, config, classifier).dropped)
    + MapSeq(MarkNotCensus, AspectStage(frame, config, classifier, ln).dropped)
    + MapSeq(MarkNotCensus, removed)
    + MapSeq(Unscored, FilterDataframe(frame, config).dropped)
  }

  /** What a row of final_df says about the stage that decided it. */
  ghost predicate Explained(f: CensusRow, frame: Frame, config: Config, classifier: Annotation -> (real, real),
                            ln: real -> real, nms: (seq<Measured>, real) -> set<nat>)
    requires BoxesHaveFourValues(frame.rows)
  {
    && f.ann in frame.rows
    // screened-out rows, and only they, carry no scores
    && (f.caScore.None? <==> !Accepted(frame.columns, f.ann, config))
    && (f.caScore.None? ==> f.softmax0.None? && f.logAR.None? && !f.census)
    && (f.caScore.Some? ==> f.softmax0 == Some(classifier(f.ann).0) && f.caScore == Some(classifier(f.ann).1))
    // a ratio is computed exactly for rows above the score threshold
    && (f.logAR.Some? <==> f.caScore.Some? && f.caScore.value > config.thresholdCA)
    && (f.logAR.Some? ==> f.logAR.value == LogAspectOf(f.ann, ln))
    // census rows are inside the window and survive NMS; other rows inside the window were removed by NMS
    && (f.census ==> f.logAR.Some? && InWindow(f.logAR.value, config))
    && (f.logAR.Some? && InWindow(f.logAR.value, config) ==>
          var m := Measured(Scored(f.ann, f.softmax0.value, f.caScore.value), f.logAR.value);
          var eligible := AspectStage(frame, config, classifier, ln).kept;
          if f.census then SurvivesNms(eligible, m, config.nmsThreshold, nms)
          else RemovedByNms(eligible, m, config.nmsThreshold, nms))
  }

  lemma ExplainUnscored(frame: Frame, config: Config, classifier: Annotation -> (real, real),
                        ln: real -> real, nms: (seq<Measured>, real) -> set<nat>, a: Annotation)
    requires BoxesHaveFourValues(frame.rows)
    requires a in FilterDataframe(frame, config).dropped
    ensures Explained(Unscored(a), frame, config, classifier, ln, nms)
  {
  }

  lemma ExplainBelow(frame: Frame, config: Config, classifier: Annotation -> (real, real),
                     ln: real -> real, nms: (seq<Measured>, real) -> set<nat>, s: Scored)
    requires BoxesHaveFourValues(frame.rows)
    requires s in ThresholdStage(frame, config, classifier).dropped
    ensures Explained(BelowThreshold(s), frame, config, classifier, ln, nms)
  {
  }

  lemma ExplainMeasured(frame: Frame, config: Config, classifier: Annotation -> (real, real),
                        ln: real -> real, nms: (seq<Measured>, real) -> set<nat>, m: Measured, census: bool)
    requires BoxesHaveFourValues(frame.rows)
    requires m in MeasuredStage(frame, config, classifier, ln)
    requires census ==> InWindow(m.logAR, config)
    requires InWindow(m.logAR, config) ==>
               var eligible := AspectStage(frame, config, classifier, ln).kept;
               if census then SurvivesNms(eligible, m, config.nmsThreshold, nms)
               else RemovedByNms(eligible, m, config.nmsThreshold, nms)
    ensures Explained(if census then MarkCensus(m) else MarkNotCensus(m), frame, config, classifier, ln, nms)
  {
  }

  /** final_df holds every input row exactly once. */
  lemma FinalAnnotations(frame: Frame, config: Config, classifier: Annotation -> (real, real), ln: real -> real,
                         kept: seq<Measured>, removed: seq<Measured>)
    requires BoxesHaveFourValues(frame.rows)
    requires multiset(kept) + multiset(removed) == multiset(AspectStage(frame, config, classifier, ln).kept)
    ensures multiset(MapSeq(CensusAnn, Assemble(frame, config, classifier, ln, kept, removed))) == multiset(frame.rows)
  {
    var filtered := FilterDataframe(frame, config);
    var scored := ScoreAll(filtered.kept, classifier);
    var byScore := ThresholdStage(frame, config, classifier);
    var measured := MeasuredStage(frame, config, classifier, ln);
    var byAspect := AspectStage(frame, config, classifier, ln);
    var p1 := MapSeq(MarkCensus, kept);
    var p2 := MapSeq(BelowThreshold, byScore.dropped);
    var p3 := MapSeq(MarkNotCensus, byAspect.dropped);
    var p4 := MapSeq(MarkNotCensus, removed);
    var p5 := MapSeq(Unscored, filtered.dropped);
    MapSeqConcat(CensusAnn, p1 + p2 + p3 + p4, p5);
    MapSeqConcat(CensusAnn, p1 + p2 + p3, p4);
    MapSeqConcat(CensusAnn, p1 + p2, p3);
    MapSeqConcat(CensusAnn, p1, p2);
    MapSeqCompose(MarkCensus, CensusAnn, MeasuredAnn, kept);
    MapSeqCompose(BelowThreshold, CensusAnn, ScoredAnn, byScore.dropped);
    MapSeqCompose(MarkNotCensus, CensusAnn, MeasuredAnn, byAspect.dropped);
    MapSeqCompose(MarkNotCensus, CensusAnn, MeasuredAnn, removed);
    assert MapSeq(CensusAnn, p5) == filtered.dropped;
    MapSeqSplit(MeasuredAnn, kept, removed, byAspect.kept);
    MapSeqSplit(MeasuredAnn, byAspect.kept, byAspect.dropped, measured);
    assert MapSeq(MeasuredAnn, measured) == MapSeq(ScoredAnn, byScore.kept);
    MapSeqSplit(ScoredAnn, byScore.kept, byScore.dropped, scored);
    assert MapSeq(ScoredAnn, scored) == filtered.kept;
  }

  ghost predicate AllExplained(part: seq<CensusRow>, frame: Frame, config: Config, classifier: Annotation -> (real, real),
                               ln: real -> real, nms: (seq<Measured>, real) -> set<nat>)
    requires BoxesHaveFourValues(frame.rows)
  {
    forall f :: f in part ==> Explained(f, frame, config, classifier, ln, nms)
  }

  /** A row inside the window is explained by what NMS did to it. */
  lemma ExplainEligible(frame: Frame, config: Config, classifier: Annotation -> (real, real), ln: real -> real,
                        nms: (seq<Measured>, real) -> set<nat>, m: Measured, census: bool)
    requires BoxesHaveFourValues(frame.rows)
    requires m in AspectStage(frame, config, classifier, ln).kept
    requires census ==> SurvivesNms(AspectStage(frame, config, classifier, ln).kept, m, config.nmsThreshold, nms)
    requires !census ==> RemovedByNms(AspectStage(frame, config, classifier, ln).kept, m, config.nmsThreshold, nms)
    ensures Explained(if census then MarkCensus(m) else MarkNotCensus(m), frame, config, classifier, ln, nms)
  {
    assert m in MeasuredStage(frame, config, classifier, ln) && InWindow(m.logAR, config);
    ExplainMeasured(frame, config, classifier, ln, nms, m, census);
  }

  /** The NMS survivors, flagged for the census. */
  lemma ExplainSurvivors(frame: Frame, config: Config, classifier: Annotation -> (real, real), ln: real -> real,
                         nms: (seq<Measured>, real) -> set<nat>, kept: seq<Measured>)
    requires BoxesHaveFourValues(frame.rows)
    requires forall m :: m in kept ==> m in AspectStage(frame, config, classifier, ln).kept
    requires AllSurvive(AspectStage(frame, config, classifier, ln).kept, kept, config.nmsThreshold, nms)
    ensures AllExplained(MapSeq(MarkCensus, kept), frame, config, classifier, ln, nms)
  {
    forall f | f in MapSeq(MarkCensus, kept)
      ensures Explained(f, frame, config, classifier, ln, nms)
    {
      var i :| 0 <= i < |kept| && MapSeq(MarkCensus, kept)[i] == f;
      ExplainEligible(frame, config, classifier, ln, nms, kept[i], true);
    }
  }

  /** The rows NMS removed, not flagged. */
  lemma ExplainSuppressed(frame: Frame, config: Config, classifier: Annotation -> (real, real), ln: real -> real,
                          nms: (seq<Measured>, real) -> set<nat>, removed: seq<Measured>)
    requires BoxesHaveFourValues(frame.rows)
    requires forall m :: m in removed ==> m in AspectStage(frame, config, classifier, ln).kept
    requires AllRemoved(AspectStage(frame, config, classifier, ln).kept, removed, config.nmsThreshold, nms)
    ensures AllExplained(MapSeq(MarkNotCensus, removed), frame, config, classifier, ln, nms)
  {
    forall f | f in MapSeq(MarkNotCensus, removed)
      ensures Explained(f, frame, config, classifier, ln, nms)
    {
      var i :| 0 <= i < |removed| && MapSeq(MarkNotCensus, removed)[i] == f;
      ExplainEligible(frame, config, classifier, ln, nms, removed[i], false);
    }
  }

  lemma PartsOfEligible(kept: seq<Measured>, removed: seq<Measured>, eligible: seq<Measured>)
    requires multiset(kept) + multiset(removed) == multiset(eligible)
    ensures forall m :: m in kept ==> m in eligible
    ensures forall m :: m in removed ==> m in eligible
  {
    forall m | m in kept ensures m in eligible {
      assert m in multiset(eligible);
    }
    forall m | m in removed ensures m in eligible {
      assert m in multiset(eligible);
    }
  }

  /** The rows outside the aspect-ratio window, not flagged. */
  lemma ExplainOutside(frame: Frame, config: Config, classifier: Annotation -> (real, real), ln: real -> real,
                       nms: (seq<Measured>, real) -> set<nat>)
    requires BoxesHaveFourValues(frame.rows)
    ensures AllExplained(MapSeq(MarkNotCensus, AspectStage(frame, config, classifier, ln).dropped), frame, config, classifier, ln, nms)
  {
    var outside := AspectStage(frame, config, classifier, ln).dropped;
    forall f | f in MapSeq(MarkNotCensus, outside)
      ensures Explained(f, frame, config, classifier, ln, nms)
    {
      var i :| 0 <= i < |outside| && MapSeq(MarkNotCensus, outside)[i] == f;
      ExplainOutsideRow(frame, config, classifier, ln, nms, outside[i]);
    }
  }

  /** A row outside the window is explained whatever NMS would have done. */
  lemma ExplainOutsideRow(frame: Frame, config: Config, classifier: Annotation -> (real, real), ln: real -> real,
                          nms: (seq<Measured>, real) -> set<nat>, m: Measured)
    requires BoxesHaveFourValues(frame.rows)
    requires m in AspectStage(frame, config, classifier, ln).dropped
    ensures Explained(MarkNotCensus(m), frame, config, classifier, ln, nms)
  {
    assert m in MeasuredStage(frame, config, classifier, ln) && !InWindow(m.logAR, config);
    ExplainMeasured(frame, config, classifier, ln, nms, m, false);
  }

  /** The rows below threshold_CA, not flagged and without a ratio. */
  lemma ExplainBelowPart(frame: Frame, config: Config, classifier: Annotation -> (real, real), ln: real -> real,
                         nms: (seq<Measured>, real) -> set<nat>)
    requires BoxesHaveFourValues(frame.rows)
    ensures AllExplained(MapSeq(BelowThreshold, ThresholdStage(frame, config, classifier).dropped), frame, config, classifier, ln, nms)
  {
    var below := ThresholdStage(frame, config, classifier).dropped;
    forall f | f in MapSeq(BelowThreshold, below)
      ensures Explained(f, frame, config, classifier, ln, nms)
    {
      var i :| 0 <= i < |below| && MapSeq(BelowThreshold, below)[i] == f;
      ExplainBelow(frame, config, classifier, ln, nms, below[i]);
    }
  }

  /** The screened-out rows, not flagged and without scores. */
  lemma ExplainScreened(frame: Frame, config: Config, classifier: Annotation -> (real, real), ln: real -> real,
                        nms: (seq<Measured>, real) -> set<nat>)
    requires BoxesHaveFourValues(frame.rows)
    ensures AllExplained(MapSeq(Unscored, FilterDataframe(frame, config).dropped), frame, config, classifier, ln, nms)
  {
    var screened := FilterDataframe(frame, config).dropped;
    forall f | f in MapSeq(Unscored, screened)
      ensures Explained(f, frame, config, classifier, ln, nms)
    {
      var i :| 0 <= i < |screened| && MapSeq(Unscored, screened)[i] == f;
      ExplainUnscored(frame, config, classifier, ln, nms, screened[i]);
    }
  }

  lemma AllExplainedConcat(a: seq<CensusRow>, b: seq<CensusRow>, frame: Frame, config: Config,
                           classifier: Annotation -> (real, real), ln: real -> real, nms: (seq<Measured>, real) -> set<nat>)
    requires BoxesHaveFourValues(frame.rows)
    requires AllExplained(a, frame, config, classifier, ln, nms) && AllExplained(b, frame, config, classifier, ln, nms)
    ensures AllExplained(a + b, frame, config, classifier, ln, nms)
  {
  }

  /**
   * Lines 182-258 of main, corrected: the intended screen, score the
   * screened rows, cut at threshold_CA, cut at the aspect-ratio window by a
   * mask and its complement, run NMS per image, flag the survivors, and put
   * all five groups back together.
   */
  method PostProcess(frame: Frame, config: Config, classifier: Annotation -> (real, real), ln: real -> real,
                     nms: (seq<Measured>, real) -> set<nat>)
    returns (final: seq<CensusRow>)
    requires BoxesHaveFourValues(frame.rows)
    ensures |final| == |frame.rows|
    ensures multiset(MapSeq(CensusAnn, final)) == multiset(frame.rows)
    ensures AllExplained(final, frame, config, classifier, ln, nms)
  {
    var eligible := AspectStage(frame, config, classifier, ln).kept;
    var kept, removed := ApplyNmsPerImage(eligible, config.nmsThreshold, nms);
    var p1 := MapSeq(MarkCensus, kept);
    var p2 := MapSeq(BelowThreshold, ThresholdStage(frame, config, classifier).dropped);
    var p3 := MapSeq(MarkNotCensus, AspectStage(frame, config, classifier, ln).dropped);
    var p4 := MapSeq(MarkNotCensus, removed);
    var p5 := MapSeq(Unscored, FilterDataframe(frame, config).dropped);
    final := p1 + p2 + p3 + p4 + p5;
    FinalAnnotations(frame, config, classifier, ln, kept, removed);
    PartsOfEligible(kept, removed, eligible);
    ExplainSurvivors(frame, config, classifier, ln, nms, kept);
    ExplainSuppressed(frame, config, classifier, ln, nms, removed);
    ExplainOutside(frame, config, classifier, ln, nms);
    ExplainBelowPart(frame, config, classifier, ln, nms);
    ExplainScreened(frame, config, classifier, ln, nms);
    AllExplainedConcat(p1, p2, frame, config, classifier, ln, nms);
    AllExplainedConcat(p1 + p2, p3, frame, config, classifier, ln, nms);
    AllExplainedConcat(p1 + p2 + p3, p4, frame, config, classifier, ln, nms);
    AllExplainedConcat(p1 + p2 + p3 + p4, p5, frame, config, classifier, ln, nms);
    assert |multiset(MapSeq(CensusAnn, final))| == |multiset(frame.rows)|;
  }

  // ----- main as written -----

  /** Why main stops before final_df exists. */
  datatype MainError =
    | Screening(error: FilterError)  // filter_dataframe raises KeyError
    | NoScores                       // all_softmax_outputs[:, 0] raises IndexError on np.array([])

  /** The frame filter_dataframe as written reads: without the spaced key, its species column is ignored. */
  function EffectiveFrame(frame: Frame): (r: Frame)
    ensures r.rows == frame.rows
    ensures SpeciesKeyAsWritten in frame.columns ==> r == frame
    ensures SpeciesKeyAsWritten !in frame.columns ==> SpeciesColumn !in r.columns
  {
    if SpeciesKeyAsWritten in frame.columns then frame else Frame(frame.columns - {SpeciesColumn}, frame.rows)
  }

  /** Whenever filter_dataframe as written succeeds, it is the intended filter on the effective frame. */
  lemma ScreenAsWritten(frame: Frame, config: Config)
    requires FilterDataframeAsWritten(frame, config).Ok?
    ensures FilterDataframeAsWritten(frame, config) == Ok(FilterDataframe(EffectiveFrame(frame), config))
  {
    if SpeciesKeyAsWritten !in frame.columns {
      AsWrittenIgnoresSpecies(frame, config);
    }
  }

  /** An empty input screens nothing in, so test_new has no rows to score. */
  lemma EmptyInputScreensNothing(config: Config)
    ensures FilterDataframeAsWritten(Frame({}, []), config) == Ok(Split([], []))
  {
  }

  /** The rows above threshold_CA whose log_AR is NaN: in neither ar_filtered nor ar_filtered_out. */
  function LostRows(frame: Frame, config: Config, classifier: Annotation -> (real, real), ln: real -> real): (r: seq<Measured>)
    requires BoxesHaveFourValues(frame.rows)
    ensures forall m :: m in r <==> m in MeasuredStage(frame, config, classifier, ln) && m.logAR.NaN?
  {
    Filter(MeasuredStage(frame, config, classifier, ln), NaNMask())
  }

  /** Without NaN ratios no row is lost. */
  lemma NoLostRows(frame: Frame, config: Config, classifier: Annotation -> (real, real), ln: real -> real)
    requires BoxesHaveFourValues(frame.rows)
    requires forall m :: m in MeasuredStage(frame, config, classifier, ln) ==> !m.logAR.NaN?
    ensures LostRows(frame, config, classifier, ln) == []
  {
    FilterNone(MeasuredStage(frame, config, classifier, ln), NaNMask());
  }

  /** One row of an accepted viewpoint in a frame without a species column is screened in. */
  lemma OneRowScreened(a: Annotation, config: Config)
    requires a.viewpoint in config.viewpoints
    ensures FilterDataframe(Frame({}, [a]), config).kept == [a]
  {
    assert [a][1..] == [];
  }

  /** That row, scored above threshold_CA, is measured with the ratio of its box. */
  lemma OneRowMeasured(a: Annotation, config: Config, classifier: Annotation -> (real, real), ln: real -> real)
    requires |a.bbox| == 4 && a.viewpoint in config.viewpoints
    requires classifier(a).1 > config.thresholdCA
    ensures MeasuredStage(Frame({}, [a]), config, classifier, ln) ==
              [Measured(Scored(a, classifier(a).0, classifier(a).1), LogAspectOf(a, ln))]
  {
    var s := Scored(a, classifier(a).0, classifier(a).1);
    OneRowScreened(a, config);
    assert ScoreAll([a], classifier) == [s];
    assert [s][1..] == [];
    assert ThresholdStage(Frame({}, [a]), config, classifier).kept == [s];
  }

  /** A scored-above-threshold row with a zero-sized box is exactly what main as written loses. */
  lemma ZeroBoxIsLost(a: Annotation, config: Config, classifier: Annotation -> (real, real), ln: real -> real)
    requires a.bbox == [0.0, 0.0, 0.0, 0.0] && a.viewpoint in config.viewpoints
    requires classifier(a).1 > config.thresholdCA
    ensures var frame := Frame({}, [a]);
            LostRows(EffectiveFrame(frame), config, classifier, ln) ==
              [Measured(Scored(a, classifier(a).0, classifier(a).1), NaN)]
  {
    var frame := Frame({}, [a]);
    assert EffectiveFrame(frame) == frame;
    assert LogAspectOf(a, ln) == NaN;
    OneRowMeasured(a, config, classifier, ln);
    OneNaNRowLost(Measured(Scored(a, classifier(a).0, classifier(a).1), NaN));
  }

  /** A single row with a NaN ratio is selected by the NaN mask. */
  lemma OneNaNRowLost(m: Measured)
    requires m.logAR.NaN?
    ensures Filter([m], NaNMask()) == [m]
  {
    assert [m][1..] == [];
  }

  /** final_df as written: ar_filtered_out is selected by its own mask. */
  function AssembleAsWritten(frame: Frame, config: Config, classifier: Annotation -> (real, real), ln: real -> real,
                             kept: seq<Measured>, removed: seq<Measured>): seq<CensusRow>
    requires BoxesHaveFourValues(frame.rows)
  {
    MapSeq(MarkCensus, kept)
    + MapSeq(BelowThreshold, ThresholdStage(frame, config, classifier).dropped)
    + MapSeq(MarkNotCensus, SplitAspectRatioAsWritten(MeasuredStage(frame, config, classifier, ln), config).dropped)
    + MapSeq(MarkNotCensus, removed)
    + MapSeq(Unscored, FilterDataframe(frame, config).dropped)
  }

  /** The annotations of five concatenated groups are those of the groups. */
  lemma AnnotationsOfFive(a: seq<CensusRow>, b: seq<CensusRow>, c: seq<CensusRow>, d: seq<CensusRow>, e: seq<CensusRow>)
    ensures multiset(MapSeq(CensusAnn, a + b + c + d + e)) ==
            multiset(MapSeq(CensusAnn, a)) + multiset(MapSeq(CensusAnn, b)) + multiset(MapSeq(CensusAnn, c))
            + multiset(MapSeq(CensusAnn, d)) + multiset(MapSeq(CensusAnn, e))
  {
    MapSeqConcat(CensusAnn, a + b + c + d, e);
    MapSeqConcat(CensusAnn, a + b + c, d);
    MapSeqConcat(CensusAnn, a + b, c);
    MapSeqConcat(CensusAnn, a, b);
  }

  /** final_df as written plus the NaN-ratio rows it loses hold every input annotation exactly once. */
  lemma FinalAnnotationsAsWritten(frame: Frame, config: Config, classifier: Annotation -> (real, real), ln: real -> real,
                                  kept: seq<Measured>, removed: seq<Measured>)
    requires BoxesHaveFourValues(frame.rows)
    requires multiset(kept) + multiset(removed) == multiset(AspectStage(frame, config, classifier, ln).kept)
    ensures multiset(MapSeq(CensusAnn, AssembleAsWritten(frame, config, classifier, ln, kept, removed)))
            + multiset(MapSeq(MeasuredAnn, LostRows(frame, config, classifier, ln))) == multiset(frame.rows)
  {
    var measured := MeasuredStage(frame, config, classifier, ln);
    var outside := SplitAspectRatioAsWritten(measured, config).dropped;
    var complement := AspectStage(frame, config, classifier, ln).dropped;
    var lost := LostRows(frame, config, classifier, ln);
    var p1 := MapSeq(MarkCensus, kept);
    var p2 := MapSeq(BelowThreshold, ThresholdStage(frame, config, classifier).dropped);
    var p4 := MapSeq(MarkNotCensus, removed);
    var p5 := MapSeq(Unscored, FilterDataframe(frame, config).dropped);
    FinalAnnotations(frame, config, classifier, ln, kept, removed);
    AnnotationsOfFive(p1, p2, MapSeq(MarkNotCensus, complement), p4, p5);
    AnnotationsOfFive(p1, p2, MapSeq(MarkNotCensus, outside), p4, p5);
    OutsidePlusNaN(measured, config);
    MapSeqSplit(MeasuredAnn, outside, lost, complement);
    MapSeqCompose(MarkNotCensus, CensusAnn, MeasuredAnn, outside);
    MapSeqCompose(MarkNotCensus, CensusAnn, MeasuredAnn, complement);
  }

  /** The rows ar_filtered_out as written selects are outside the window, hence explained. */
  lemma ExplainOutsideAsWritten(frame: Frame, config: Config, classifier: Annotation -> (real, real), ln: real -> real,
                                nms: (seq<Measured>, real) -> set<nat>)
    requires BoxesHaveFourValues(frame.rows)
    ensures AllExplained(MapSeq(MarkNotCensus, SplitAspectRatioAsWritten(MeasuredStage(frame, config, classifier, ln), config).dropped),
                         frame, config, classifier, ln, nms)
  {
    var outside := SplitAspectRatioAsWritten(MeasuredStage(frame, config, classifier, ln), config).dropped;
    forall f | f in MapSeq(MarkNotCensus, outside)
      ensures Explained(f, frame, config, classifier, ln, nms)
    {
      var i :| 0 <= i < |outside| && MapSeq(MarkNotCensus, outside)[i] == f;
      OutsideAsWrittenRow(frame, config, classifier, ln, outside[i]);
      ExplainOutsideRow(frame, config, classifier, ln, nms, outside[i]);
    }
  }

  /** A row ar_filtered_out as written selects is in the intended ar_filtered_out. */
  lemma OutsideAsWrittenRow(frame: Frame, config: Config, classifier: Annotation -> (real, real), ln: real -> real,
                            m: Measured)
    requires BoxesHaveFourValues(frame.rows)
    requires m in SplitAspectRatioAsWritten(MeasuredStage(frame, config, classifier, ln), config).dropped
    ensures m in AspectStage(frame, config, classifier, ln).dropped
  {
    WindowTrichotomy(m.logAR, config);
  }

  /**
   * Lines 182-258 of main as written: the screen of filter_dataframe as
   * written, IndexError when it lets no row through, and ar_filtered_out
   * selected by its own mask, so rows with a NaN log_AR are lost.
   */
  method PostProcessAsWritten(frame: Frame, config: Config, classifier: Annotation -> (real, real), ln: real -> real,
                              nms: (seq<Measured>, real) -> set<nat>)
    returns (r: Result<seq<CensusRow>, MainError>)
    requires BoxesHaveFourValues(frame.rows)
    ensures r.Ok? <==> FilterDataframeAsWritten(frame, config).Ok? && FilterDataframeAsWritten(frame, config).value.kept != []
    ensures FilterDataframeAsWritten(frame, config).Err? ==> r == Err(Screening(FilterDataframeAsWritten(frame, config).error))
    ensures FilterDataframeAsWritten(frame, config).Ok? && FilterDataframeAsWritten(frame, config).value.kept == [] ==>
              r == Err(NoScores)
    ensures r.Ok? ==>
              multiset(MapSeq(CensusAnn, r.value))
              + multiset(MapSeq(MeasuredAnn, LostRows(EffectiveFrame(frame), config, classifier, ln))) == multiset(frame.rows)
    ensures r.Ok? ==> AllExplained(r.value, EffectiveFrame(frame), config, classifier, ln, nms)
  {
    var screen := FilterDataframeAsWritten(frame, config);
    if screen.Err? {
      return Err(Screening(screen.error));
    }
    if screen.value.kept == [] {
      return Err(NoScores);
    }
    ScreenAsWritten(frame, config);
    var eff := EffectiveFrame(frame);
    var measured := MeasuredStage(eff, config, classifier, ln);
    var byAspect := SplitAspectRatioAsWritten(measured, config);
    OutsidePlusNaN(measured, config);
    var eligible := byAspect.kept;
    var kept, removed := ApplyNmsPerImage(eligible, config.nmsThreshold, nms);
    var p1 := MapSeq(MarkCensus, kept);
    var p2 := MapSeq(BelowThreshold, ThresholdStage(eff, config, classifier).dropped);
    var p3 := MapSeq(MarkNotCensus, byAspect.dropped);
    var p4 := MapSeq(MarkNotCensus, removed);
    var p5 := MapSeq(Unscored, screen.value.dropped);
    var final := p1 + p2 + p3 + p4 + p5;
    FinalAnnotationsAsWritten(eff, config, classifier, ln, kept, removed);
    PartsOfEligible(kept, removed, eligible);
    ExplainSurvivors(eff, config, classifier, ln, nms, kept);
    ExplainSuppressed(eff, config, classifier, ln, nms, removed);
    ExplainOutsideAsWritten(eff, config, classifier, ln, nms);
    ExplainBelowPart(eff, config, classifier, ln, nms);
    ExplainScreened(eff, config, classifier, ln, nms);
    AllExplainedConcat(p1, p2, eff, config, classifier, ln, nms);
    AllExplainedConcat(p1 + p2, p3, eff, config, classifier, ln, nms);
    AllExplainedConcat(p1 + p2 + p3, p4, eff, config, classifier, ln, nms);
    AllExplainedConcat(p1 + p2 + p3 + p4, p5, eff, config, classifier, ln, nms);
    return Ok(final);
  }
}
