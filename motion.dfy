/** Motion detection between two frames: frame differencing with a strict
    threshold, the same followed by the morphological cleanup, the summary of
    the motion regions' areas, and the demo that merges that summary into
    each detector's statistics. */
module Motion {
  import opened Grids
  import opened Records
  import opened Subtraction
  import opened BooleanOps
  import opened Morphology

  // ---------------------------------------------------------------------
  // Detection

  /** The detector's mask: 255 where the frames differ by more than the
      threshold, 0 elsewhere. */
  function MotionMask(f1: Grid, f2: Grid, t: int): Grid
    requires SameShapeImages(f1, f2)
  {
    ThresholdMask(AbsDiff(f1, f2), t)
  }

  /** `'DETECTED' if motion_percentage > 1.0 else 'MINIMAL'`. */
  function StatusText(count: nat, total: nat): string
    requires total > 0
  {
    if Percent(count, total) > 1.0 then "DETECTED" else "MINIMAL"
  }

  /** The statistics both detectors report about their mask; the cleaned one
      adds `Cleaned` before `Method`. */
  function MotionStats(m: Grid, t: int, cleaned: bool): Stats
    requires IsRect(m) && Size(m) > 0
  {
    var count, total := CountNonzero(m), Size(m);
    [(MotionPixels, Int(count)), (TotalPixels, Int(total)),
     (MotionPercent, Real(Percent(count, total))), (Threshold, Text(ThresholdText(t))),
     (Status, Text(StatusText(count, total)))] +
    (if cleaned then [(Cleaned, Text("Morphological")), (Method, Text("With Cleanup"))]
     else [(Method, Text("Simple Differencing"))])
  }

  /** `deteksi_motion_sederhana`, for frames of one shape. `None` stands for
      `(None, None)`: a frame that is not an 8-bit image makes OpenCV raise,
      and frames without samples make the percentage divide by zero. */
  function SimpleMotion(f1: Grid, f2: Grid, t: int): (r: Option<Outcome>)
    requires SameShape(f1, f2)
    ensures r.Some? <==> Comparable(f1, f2)
  {
    if !Comparable(f1, f2) then None
    else
      var m := MotionMask(f1, f2, t);
      ThresholdMaskSpec(AbsDiff(f1, f2), t);
      Some(Outcome(m, MotionStats(m, t, false)))
  }

  /** `deteksi_motion_dengan_cleanup`: `None` exactly when the simple
      detection it starts from fails. */
  function CleanedMotion(f1: Grid, f2: Grid, t: int): (r: Option<Outcome>)
    requires SameShape(f1, f2)
    ensures r.Some? <==> SimpleMotion(f1, f2, t).Some?
  {
    var simple := SimpleMotion(f1, f2, t);
    if simple.None? then None
    else
      var m := simple.value.image;
      ThresholdMaskSpec(AbsDiff(f1, f2), t);
      CleanupMask(m);
      var c := Cleanup(m);
      Some(Outcome(c, MotionStats(c, t, true)))
  }

  // ---------------------------------------------------------------------
  // Properties of the detectors

  /** The simple detector's mask is 255 exactly where the frames differ by
      more than the threshold and 0 elsewhere, has the frames' shape, and its
      statistics describe that mask. */
  lemma SimpleMotionSpec(f1: Grid, f2: Grid, t: int)
    requires Comparable(f1, f2)
    ensures var o := SimpleMotion(f1, f2, t).value;
      IsMask(o.image) && SameShape(o.image, f1) && SameRows(o.image, f1) &&
      (forall i, j :: 0 <= i < |f1| && 0 <= j < |f1[i]| ==>
        (o.image[i][j] == 255 <==> Abs(f1[i][j] - f2[i][j]) > t) &&
        (o.image[i][j] == 0 <==> Abs(f1[i][j] - f2[i][j]) <= t)) &&
      o.stats == MotionStats(o.image, t, false)
  {
    ThresholdMaskSpec(AbsDiff(f1, f2), t);
  }

  /** The cleaned detector's mask is the cleanup of the simple detector's
      mask: a mask of the frames' shape that closing only grew and opening
      only shrank. Its statistics describe the cleaned mask. */
  lemma CleanedMotionSpec(f1: Grid, f2: Grid, t: int)
    requires Comparable(f1, f2)
    ensures var m := SimpleMotion(f1, f2, t).value.image;
      var o := CleanedMotion(f1, f2, t).value;
      o.image == Open(Close(m)) &&
      PointwiseLe(m, Close(m)) && PointwiseLe(o.image, Close(m)) &&
      IsMask(o.image) && SameShape(o.image, f1) && SameRows(o.image, f1) &&
      o.stats == MotionStats(o.image, t, true)
  {
    var m := SimpleMotion(f1, f2, t).value.image;
    SimpleMotionSpec(f1, f2, t);
    CloseExtensive(m);
    OpenAntiExtensive(Close(m));
    CleanupMask(m);
  }

  /** Swapping the frames changes nothing. */
  lemma SimpleMotionSymmetric(f1: Grid, f2: Grid, t: int)
    requires SameShape(f1, f2)
    ensures SimpleMotion(f1, f2, t) == SimpleMotion(f2, f1, t)
    ensures CleanedMotion(f1, f2, t) == CleanedMotion(f2, f1, t)
  {
    if Comparable(f1, f2) {
      AbsDiffSymmetric(f1, f2);
    }
  }

  /** The statistics record: the motion count is between 0 and the sample
      count; the percentage is that share times 100 and lies in [0, 100]; the
      status is `DETECTED` exactly when more than one percent of the samples
      moved, which is the integer test `100 * count > total`, and `MINIMAL`
      otherwise; the method names the detector. */
  lemma MotionStatsFacts(m: Grid, t: int, cleaned: bool)
    requires IsRect(m) && Size(m) > 0
    ensures var s := MotionStats(m, t, cleaned);
      var count, total := CountNonzero(m), Size(m);
      Get(s, MotionPixels) == Some(Int(count)) && Get(s, TotalPixels) == Some(Int(total)) &&
      0 <= count <= total &&
      Get(s, MotionPercent) == Some(Real(Percent(count, total))) &&
      0.0 <= Percent(count, total) <= 100.0 &&
      Get(s, Threshold) == Some(Text(ThresholdText(t))) &&
      (Get(s, Status) == Some(Text("DETECTED")) <==> 100 * count > total) &&
      (Get(s, Status) == Some(Text("MINIMAL")) <==> 100 * count <= total) &&
      (cleaned ==> Get(s, Cleaned) == Some(Text("Morphological"))) &&
      Get(s, Method) == Some(Text(if cleaned then "With Cleanup" else "Simple Differencing"))
  {
    var count, total := CountNonzero(m), Size(m);
    MotionStatsEntries(m, t, cleaned);
    CountNonzeroAtMostSize(m);
    PercentBounds(count, total);
    PercentAboveOne(count, total);
  }

  /** The record's entries, looked up by key. */
  lemma MotionStatsEntries(m: Grid, t: int, cleaned: bool)
    requires IsRect(m) && Size(m) > 0
    ensures var s := MotionStats(m, t, cleaned);
      var count, total := CountNonzero(m), Size(m);
      Get(s, MotionPixels) == Some(Int(count)) && Get(s, TotalPixels) == Some(Int(total)) &&
      Get(s, MotionPercent) == Some(Real(Percent(count, total))) &&
      Get(s, Threshold) == Some(Text(ThresholdText(t))) &&
      Get(s, Status) == Some(Text(StatusText(count, total))) &&
      (cleaned ==> Get(s, Cleaned) == Some(Text("Morphological"))) &&
      Get(s, Method) == Some(Text(if cleaned then "With Cleanup" else "Simple Differencing"))
  {
    var s := MotionStats(m, t, cleaned);
    assert UniqueKeys(s);
    GetAt(s, 0); GetAt(s, 1); GetAt(s, 2); GetAt(s, 3); GetAt(s, 4); GetAt(s, 5);
    if cleaned {
      GetAt(s, 6);
    }
  }

  /** The record's keys in order; the cleaned detector's adds `Cleaned`
      before `Method`. */
  lemma MotionStatsKeys(m: Grid, t: int, cleaned: bool)
    requires IsRect(m) && Size(m) > 0
    ensures Keys(MotionStats(m, t, cleaned)) == [MotionPixels, TotalPixels, MotionPercent, Threshold, Status] +
      (if cleaned then [Cleaned, Method] else [Method])
  {
    var s := MotionStats(m, t, cleaned);
    if cleaned {
      assert Keys(s) == [s[0].0, s[1].0, s[2].0, s[3].0, s[4].0, s[5].0, s[6].0];
    } else {
      assert Keys(s) == [s[0].0, s[1].0, s[2].0, s[3].0, s[4].0, s[5].0];
    }
  }

  /** Identical frames show no motion: with a non-negative threshold both
      detectors record no motion sample and the status `MINIMAL`. */
  lemma IdenticalFramesMinimal(f: Grid, t: int)
    requires IsImage(f) && Size(f) > 0 && t >= 0
    ensures var simple, cleaned := SimpleMotion(f, f, t).value, CleanedMotion(f, f, t).value;
      Get(simple.stats, MotionPixels) == Some(Int(0)) &&
      Get(simple.stats, Status) == Some(Text("MINIMAL")) &&
      Get(cleaned.stats, MotionPixels) == Some(Int(0)) &&
      Get(cleaned.stats, Status) == Some(Text("MINIMAL"))
  {
    var m := SimpleMotion(f, f, t).value.image;
    SimpleMotionSpec(f, f, t);
    assert forall i, j :: InGrid(m, i, j) ==> m[i][j] == 0;
    CountNonzeroZero(m);
    CleanupZero(m);
    CleanupMask(m);
    var c := Cleanup(m);
    CountNonzeroZero(c);
    PercentBounds(0, Size(f));
    MotionStatsEntries(m, t, false);
    MotionStatsEntries(c, t, true);
  }

  /** Lowering the threshold never loses a motion sample, before or after
      the cleanup, so it never lowers either count. */
  lemma ThresholdMonotone(f1: Grid, f2: Grid, s: int, t: int)
    requires Comparable(f1, f2) && s <= t
    ensures PointwiseLe(SimpleMotion(f1, f2, t).value.image, SimpleMotion(f1, f2, s).value.image)
    ensures PointwiseLe(CleanedMotion(f1, f2, t).value.image, CleanedMotion(f1, f2, s).value.image)
    ensures CountNonzero(SimpleMotion(f1, f2, t).value.image) <= CountNonzero(SimpleMotion(f1, f2, s).value.image)
    ensures CountNonzero(CleanedMotion(f1, f2, t).value.image) <= CountNonzero(CleanedMotion(f1, f2, s).value.image)
  {
    var d := AbsDiff(f1, f2);
    var mt, ms := MotionMask(f1, f2, t), MotionMask(f1, f2, s);
    ThresholdMaskAntitone(d, s, t);
    ThresholdMaskSpec(d, s);
    ThresholdMaskSpec(d, t);
    CountNonzeroMono(mt, ms);
    CleanupMono(mt, ms);
    CleanupMask(mt);
    CleanupMask(ms);
    CountNonzeroMono(Cleanup(mt), Cleanup(ms));
  }

  // ---------------------------------------------------------------------
  // Area summary

  /** Python's `sum`. */
  function Sum(s: seq<real>): real
  {
    if s == [] then 0.0 else Sum(s[..|s| - 1]) + s[|s| - 1]
  }

  /** Python's `max` of a non-empty list. */
  function RealMax(s: seq<real>): real
    requires |s| > 0
  {
    if |s| == 1 then s[0]
    else
      var m' := RealMax(s[..|s| - 1]);
      if s[|s| - 1] > m' then s[|s| - 1] else m'
  }

  /** Python's `int()` of a float: truncation toward zero. */
  function Trunc(x: real): int
  {
    if x >= 0.0 then x.Floor else -((-x).Floor)
  }

  /** The summary `analisis_motion_area` builds from the contour areas. */
  function AreaSummary(areas: seq<real>): Stats
  {
    if |areas| == 0 then
      [(MotionAreas, Int(0)), (LargestArea, Int(0)), (TotalMotionArea, Int(0))]
    else
      var total := Sum(areas);
      [(MotionAreas, Int(|areas|)), (LargestArea, Int(Trunc(RealMax(areas)))),
       (TotalMotionArea, Int(Trunc(total))), (AvgArea, Int(Trunc(total / |areas| as real)))]
  }

  /** `analisis_motion_area`. Contour finding is the parameter `areasOf`,
      which gives the area of each external contour of a mask, or `None`
      when contour finding raises, and then the summary is `{}`. */
  function AnalyzeArea(m: Grid, areasOf: Grid -> Option<seq<real>>): (r: Stats)
    ensures areasOf(m).None? ==> r == []
    ensures areasOf(m).Some? ==> r == AreaSummary(areasOf(m).value)
  {
    match areasOf(m)
    case None => []
    case Some(areas) => AreaSummary(areas)
  }

  /** The largest element is an element and bounds every element. */
  lemma {:induction false} RealMaxIsMax(s: seq<real>)
    requires |s| > 0
    ensures forall k :: 0 <= k < |s| ==> s[k] <= RealMax(s)
    ensures RealMax(s) in s
  {
    if |s| > 1 {
      var t := s[..|s| - 1];
      RealMaxIsMax(t);
      assert forall k :: 0 <= k < |t| ==> t[k] == s[k];
      assert s == t + [s[|s| - 1]];
    }
  }

  /** With no negative area, every area is at most the total. */
  lemma {:induction false} SumAtLeastEach(s: seq<real>)
    requires forall k :: 0 <= k < |s| ==> s[k] >= 0.0
    ensures Sum(s) >= 0.0
    ensures forall k :: 0 <= k < |s| ==> s[k] <= Sum(s)
  {
    if s != [] {
      var n := |s| - 1;
      var t := s[..n];
      assert forall k :: 0 <= k < n ==> t[k] == s[k];
      SumAtLeastEach(t);
      assert Sum(s) == Sum(t) + s[n];
    }
  }

  /** A bound on every area bounds the total by the count times the bound. */
  lemma {:induction false} SumAtMostCountTimes(s: seq<real>, c: real)
    requires forall k :: 0 <= k < |s| ==> s[k] <= c
    ensures Sum(s) <= |s| as real * c
  {
    if s != [] {
      var n := |s| - 1;
      var t := s[..n];
      assert forall k :: 0 <= k < n ==> t[k] == s[k];
      SumAtMostCountTimes(t, c);
      assert Sum(s) == Sum(t) + s[n];
      assert n as real * c + c == |s| as real * c;
    }
  }

  /** A mean of non-negative values bounded by `c` lies in [0, c]. */
  lemma DivBetween(x: real, n: real, c: real)
    requires n > 0.0 && 0.0 <= x <= n * c
    ensures 0.0 <= x / n <= c
  {
    assert x / n * n == x;
  }

  /** Truncation of non-negative values is monotone. */
  lemma TruncMono(x: real, y: real)
    requires 0.0 <= x <= y
    ensures 0 <= Trunc(x) <= Trunc(y)
  {
  }

  /** With no contours the count, largest and total area are all 0. */
  lemma AreaSummaryEmpty()
    ensures var r := AreaSummary([]);
      Get(r, MotionAreas) == Some(Int(0)) && Get(r, LargestArea) == Some(Int(0)) &&
      Get(r, TotalMotionArea) == Some(Int(0)) && Get(r, AvgArea) == None
  {
  }

  /** The summary lists `Avg Area` exactly when there is a contour. */
  lemma AreaSummaryKeys(areas: seq<real>)
    ensures Keys(AreaSummary(areas)) ==
      [MotionAreas, LargestArea, TotalMotionArea] + (if |areas| > 0 then [AvgArea] else [])
  {
    var r := AreaSummary(areas);
    if |areas| > 0 {
      assert Keys(r) == [r[0].0, r[1].0, r[2].0, r[3].0];
    } else {
      assert Keys(r) == [r[0].0, r[1].0, r[2].0];
    }
  }

  /** Otherwise the summary holds the number of regions and the truncated
      largest, total and mean area; `RealMaxIsMax` shows the
      largest area is the maximum of the list. */
  lemma AreaSummaryFacts(areas: seq<real>)
    requires |areas| > 0
    ensures var r := AreaSummary(areas);
      Get(r, MotionAreas) == Some(Int(|areas|)) &&
      Get(r, LargestArea) == Some(Int(Trunc(RealMax(areas)))) &&
      Get(r, TotalMotionArea) == Some(Int(Trunc(Sum(areas)))) &&
      Get(r, AvgArea) == Some(Int(Trunc(Sum(areas) / |areas| as real)))
  {
    var largest, total, avg := Trunc(RealMax(areas)), Trunc(Sum(areas)), Trunc(Sum(areas) / |areas| as real);
    GetOfFour(AreaSummary(areas), MotionAreas, LargestArea, TotalMotionArea, AvgArea,
              Int(|areas|), Int(largest), Int(total), Int(avg));
  }

  /** Looking up each key of a four-entry record with distinct keys. */
  lemma GetOfFour(r: Stats, k0: Key, k1: Key, k2: Key, k3: Key, v0: Value, v1: Value, v2: Value, v3: Value)
    requires r == [(k0, v0), (k1, v1), (k2, v2), (k3, v3)]
    requires k0 != k1 && k0 != k2 && k0 != k3 && k1 != k2 && k1 != k3 && k2 != k3
    ensures Get(r, k0) == Some(v0) && Get(r, k1) == Some(v1) && Get(r, k2) == Some(v2) && Get(r, k3) == Some(v3)
  {
    var r1, r2, r3 := r[1..], r[2..], r[3..];
    assert r1 == [(k1, v1), (k2, v2), (k3, v3)] && r1[1..] == r2;
    assert r2 == [(k2, v2), (k3, v3)] && r2[1..] == r3;
    assert r3 == [(k3, v3)];
    assert Get(r3, k3) == Some(v3);
    assert Get(r2, k3) == Get(r3, k3) && Get(r2, k2) == Some(v2);
    assert Get(r1, k3) == Get(r2, k3) && Get(r1, k2) == Get(r2, k2) && Get(r1, k1) == Some(v1);
  }

  /** With no negative area, the largest area lies between the mean and the
      total, before and after truncation. */
  lemma AreaSummaryOrder(areas: seq<real>)
    requires |areas| > 0 && forall k :: 0 <= k < |areas| ==> areas[k] >= 0.0
    ensures var n, mx, total := |areas| as real, RealMax(areas), Sum(areas);
      0.0 <= total / n <= mx <= total &&
      0 <= Trunc(total / n) <= Trunc(mx) <= Trunc(total)
  {
    MaxAndTotal(areas);
    MeanMaxTotal(|areas| as real, RealMax(areas), Sum(areas));
  }

  /** With no negative area, the largest area is at most the total, which is
      at most the count times the largest area. */
  lemma MaxAndTotal(areas: seq<real>)
    requires |areas| > 0 && forall k :: 0 <= k < |areas| ==> areas[k] >= 0.0
    ensures 0.0 <= RealMax(areas) <= Sum(areas) <= |areas| as real * RealMax(areas)
  {
    RealMaxIsMax(areas);
    var k :| 0 <= k < |areas| && areas[k] == RealMax(areas);
    SumAtLeastEach(areas);
    SumAtMostCountTimes(areas, RealMax(areas));
  }

  /** A total between the largest value and `n` times it has a mean between
      0 and the largest value; truncation keeps that order. */
  lemma MeanMaxTotal(n: real, mx: real, total: real)
    requires n >= 1.0 && 0.0 <= mx <= total <= n * mx
    ensures 0.0 <= total / n <= mx <= total
    ensures 0 <= Trunc(total / n) <= Trunc(mx) <= Trunc(total)
  {
    DivBetween(total, n, mx);
    TruncMono(total / n, mx);
    TruncMono(mx, total);
  }

  // ---------------------------------------------------------------------
  // Demo

  /** The statistics `demo_motion_detection` records for an input frame,
      without the mean and standard deviation. */
  function FrameStats(f: Grid, name: string, kind: string): Stats
    requires IsRect(f) && Size(f) > 0
  {
    [(Frame, Text(name)), (Max, Int(GridMax(f))), (Min, Int(GridMin(f))), (Type, Text(kind))]
  }

  /** The frame record names the frame and its kind, and its `Max` and `Min`
      are the largest and smallest samples: bytes that bound every sample and
      are attained. */
  lemma FrameStatsFacts(f: Grid, name: string, kind: string)
    requires IsImage(f) && Size(f) > 0
    ensures exists mn, mx ::
      FrameStats(f, name, kind) == [(Frame, Text(name)), (Max, Int(mx)), (Min, Int(mn)), (Type, Text(kind))] &&
      0 <= mn <= mx <= 255 &&
      (forall i, j :: 0 <= i < |f| && 0 <= j < |f[i]| ==> mn <= f[i][j] <= mx) &&
      (exists i, j :: 0 <= i < |f| && 0 <= j < |f[i]| && f[i][j] == mx) &&
      (exists i, j :: 0 <= i < |f| && 0 <= j < |f[i]| && f[i][j] == mn)
  {
    var mn, mx := GridMin(f), GridMax(f);
    GridMaxIsMax(f);
    GridMinIsMin(f);
    ImageMinMax(f);
    assert FrameStats(f, name, kind) == [(Frame, Text(name)), (Max, Int(mx)), (Min, Int(mn)), (Type, Text(kind))];
  }

  predicate IsAreaKey(k: Key)
  {
    k == MotionAreas || k == LargestArea || k == TotalMotionArea || k == AvgArea
  }

  /** A detector's record has no area key. */
  lemma MotionStatsNoAreaKey(m: Grid, t: int, cleaned: bool)
    requires IsRect(m) && Size(m) > 0
    ensures forall n :: 0 <= n < |MotionStats(m, t, cleaned)| ==> !IsAreaKey(MotionStats(m, t, cleaned)[n].0)
  {
  }

  /** The area summary has distinct keys, all of them area keys. */
  lemma AnalyzeAreaKeys(m: Grid, areasOf: Grid -> Option<seq<real>>)
    ensures var e := AnalyzeArea(m, areasOf);
      UniqueKeys(e) && forall n :: 0 <= n < |e| ==> IsAreaKey(e[n].0)
  {
    var e := AnalyzeArea(m, areasOf);
    if areasOf(m).Some? {
      AreaSummaryKeys(areasOf(m).value);
      assert forall n :: 0 <= n < |e| ==> e[n].0 == Keys(e)[n];
    }
  }

  /** `stats.update(area_info)`: the summary's keys are all new to a
      detector's record, so the merge appends the summary. */
  lemma MergeAreaStats(m: Grid, t: int, cleaned: bool, areasOf: Grid -> Option<seq<real>>)
    requires IsRect(m) && Size(m) > 0
    ensures Update(MotionStats(m, t, cleaned), AnalyzeArea(m, areasOf)) ==
      MotionStats(m, t, cleaned) + AnalyzeArea(m, areasOf)
  {
    var s, e := MotionStats(m, t, cleaned), AnalyzeArea(m, areasOf);
    MotionStatsNoAreaKey(m, t, cleaned);
    AnalyzeAreaKeys(m, areasOf);
    UpdateFresh(s, e);
  }

  /** `demo_motion_detection` on the two frames the program synthesises
      (`None` when their synthesis fails), which are 8-bit images of one shape
      with at least one sample. The table holds both frames with their
      statistics, then the simple detector at threshold 30 and the cleaned
      detector at thresholds 30 and 15, each with the area summary of its mask
      appended to its statistics. */
  method DemoMotion(frames: Option<(Grid, Grid)>, areasOf: Grid -> Option<seq<real>>)
    returns (results: Dict<Slot, Entry>)
    requires frames.Some? ==> Comparable(frames.value.0, frames.value.1)
    ensures frames.None? ==> results == []
    ensures frames.Some? ==>
      var (f1, f2) := frames.value;
      var simple, cleaned, low := SimpleMotion(f1, f2, 30).value, CleanedMotion(f1, f2, 30).value,
        CleanedMotion(f1, f2, 15).value;
      results ==
        [(Frame1, Entry(f1, FrameStats(f1, "Original", "Static Scene"), "Frame 1 (Original)")),
         (Frame2, Entry(f2, FrameStats(f2, "Modified", "With Motion"), "Frame 2 (With Motion)")),
         (MotionSimple, Entry(simple.image, simple.stats + AnalyzeArea(simple.image, areasOf),
                              "Motion Detection (Simple)")),
         (MotionCleaned, Entry(cleaned.image, cleaned.stats + AnalyzeArea(cleaned.image, areasOf),
                               "Motion Detection (Cleaned)")),
         (MotionLowThreshold, Entry(low.image, low.stats + AnalyzeArea(low.image, areasOf),
                                    "Motion Detection (Low Threshold)"))]
  {
    if frames.None? {
      return [];
    }
    var (frame1, frame2) := frames.value;
    // The detectors are pure, so running them before the frames' entries
    // are recorded changes nothing.
    var motionSimple := SimpleMotion(frame1, frame2, 30);
    var motionCleaned := CleanedMotion(frame1, frame2, 30);
    var motionLow := CleanedMotion(frame1, frame2, 15);
    SimpleMotionSpec(frame1, frame2, 30);
    CleanedMotionSpec(frame1, frame2, 30);
    CleanedMotionSpec(frame1, frame2, 15);
    results := AssembleMotion(frame1, frame2, areasOf, motionSimple, motionCleaned, motionLow);
  }

  /** A detector's result as the demo records it, when the detector
      succeeded and its statistics are those of its mask. */
  predicate Detected(o: Option<Outcome>, t: int, cleaned: bool)
  {
    o.Some? && IsRect(o.value.image) && Size(o.value.image) > 0 &&
    o.value.stats == MotionStats(o.value.image, t, cleaned)
  }

  /** The table of `demo_motion_detection` from the frames and the results
      of the three detectors: `stats.update(area_info)` then appends the area
      summary (`MergeAreaStats`), and every slot is set once, so each
      `results[slot] = ...` appends (see `Records.PutFresh`). */
  method AssembleMotion(frame1: Grid, frame2: Grid, areasOf: Grid -> Option<seq<real>>,
                        motionSimple: Option<Outcome>, motionCleaned: Option<Outcome>,
                        motionLow: Option<Outcome>)
    returns (results: Dict<Slot, Entry>)
    requires IsRect(frame1) && Size(frame1) > 0 && IsRect(frame2) && Size(frame2) > 0
    requires Detected(motionSimple, 30, false)
    requires Detected(motionCleaned, 30, true)
    requires Detected(motionLow, 15, true)
    ensures var simple, cleaned, low := motionSimple.value, motionCleaned.value, motionLow.value;
      results ==
        [(Frame1, Entry(frame1, FrameStats(frame1, "Original", "Static Scene"), "Frame 1 (Original)")),
         (Frame2, Entry(frame2, FrameStats(frame2, "Modified", "With Motion"), "Frame 2 (With Motion)")),
         (MotionSimple, Entry(simple.image, simple.stats + AnalyzeArea(simple.image, areasOf),
                              "Motion Detection (Simple)")),
         (MotionCleaned, Entry(cleaned.image, cleaned.stats + AnalyzeArea(cleaned.image, areasOf),
                               "Motion Detection (Cleaned)")),
         (MotionLowThreshold, Entry(low.image, low.stats + AnalyzeArea(low.image, areasOf),
                                    "Motion Detection (Low Threshold)"))]
  {
    results := [];
    var statsFrame1 := FrameStats(frame1, "Original", "Static Scene");
    var statsFrame2 := FrameStats(frame2, "Modified", "With Motion");
    results := results + [(Frame1, Entry(frame1, statsFrame1, "Frame 1 (Original)"))];
    results := results + [(Frame2, Entry(frame2, statsFrame2, "Frame 2 (With Motion)"))];

    if motionSimple.Some? {
      var m := motionSimple.value.image;
      var areaInfo := AnalyzeArea(m, areasOf);
      var statsSimple := Update(motionSimple.value.stats, areaInfo);
      MergeAreaStats(m, 30, false, areasOf);
      results := results + [(MotionSimple, Entry(m, statsSimple, "Motion Detection (Simple)"))];
    }

    if motionCleaned.Some? {
      var m := motionCleaned.value.image;
      var areaInfo := AnalyzeArea(m, areasOf);
      var statsCleaned := Update(motionCleaned.value.stats, areaInfo);
      MergeAreaStats(m, 30, true, areasOf);
      results := results + [(MotionCleaned, Entry(m, statsCleaned, "Motion Detection (Cleaned)"))];
    }

    if motionLow.Some? {
      var m := motionLow.value.image;
      var areaInfo := AnalyzeArea(m, areasOf);
      var statsLow := Update(motionLow.value.stats, areaInfo);
      MergeAreaStats(m, 15, true, areasOf);
      results := results + [(MotionLowThreshold, Entry(m, statsLow, "Motion Detection (Low Threshold)"))];
    }
  }
}
