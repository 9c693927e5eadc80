/** Image subtraction: the absolute difference |A - B|, the offset difference
    (A - B) + K clipped to the 8-bit range, the basic statistics of an image,
    and the demo that assembles the three subtraction results. */
module Subtraction {
  import opened Grids
  import opened Records

  /** `cv2.absdiff` on two 8-bit images of one shape. */
  function AbsDiff(a: Grid, b: Grid): (r: Grid)
    requires SameShapeImages(a, b)
    ensures IsImage(r) && SameShape(r, a)
    ensures |r| == |a| && forall i :: 0 <= i < |a| ==> |r[i]| == |a[i]|
    ensures forall i, j :: 0 <= i < |a| && 0 <= j < |a[i]| ==> r[i][j] == Abs(a[i][j] - b[i][j])
  {
    seq(|a|, i requires 0 <= i < |a| =>
      seq(|a[i]|, j requires 0 <= j < |a[i]| => Abs(a[i][j] - b[i][j])))
  }

  /** Differencing is symmetric in its two operands. */
  lemma AbsDiffSymmetric(a: Grid, b: Grid)
    requires SameShapeImages(a, b)
    ensures AbsDiff(a, b) == AbsDiff(b, a)
  {
    var l, r := AbsDiff(a, b), AbsDiff(b, a);
    forall i | 0 <= i < |a| ensures l[i] == r[i] {
      assert |l[i]| == |r[i]|;
    }
  }

  // ---------------------------------------------------------------------
  // Absolute difference

  /** The statistics record of an absolute difference, without the floating
      point mean and standard deviation. */
  function AbsoluteStats(h: Grid): Stats
    requires IsRect(h) && Size(h) > 0
  {
    var nonzero := CountNonzero(h);
    [(Max, Int(GridMax(h))), (Min, Int(GridMin(h))), (TotalPixels, Int(Size(h))),
     (PixelsNonzero, Int(nonzero)), (PersenDiff, Real(Percent(nonzero, Size(h))))]
  }

  lemma AbsoluteStatsFields(h: Grid)
    requires IsRect(h) && Size(h) > 0
    ensures var s := AbsoluteStats(h);
      Keys(s) == [Max, Min, TotalPixels, PixelsNonzero, PersenDiff] &&
      Get(s, Max) == Some(Int(GridMax(h))) && Get(s, Min) == Some(Int(GridMin(h))) &&
      Get(s, TotalPixels) == Some(Int(Size(h))) &&
      Get(s, PixelsNonzero) == Some(Int(CountNonzero(h))) &&
      Get(s, PersenDiff) == Some(Real(Percent(CountNonzero(h), Size(h))))
  {
    var s := AbsoluteStats(h);
    assert UniqueKeys(s);
    GetAt(s, 0); GetAt(s, 1); GetAt(s, 2); GetAt(s, 3); GetAt(s, 4);
  }

  /** `pengurangan_absolut`: `None` stands for the `(None, None)` the source
      returns when its shape check raises or the empty result has no maximum. */
  function AbsoluteDifference(a: Grid, b: Grid): (r: Option<Outcome>)
    ensures r.Some? <==> Comparable(a, b)
    ensures r.Some? ==> IsImage(r.value.image) && SameShape(r.value.image, a)
    ensures r.Some? ==> forall i, j :: 0 <= i < |a| && 0 <= j < |a[i]| ==>
      r.value.image[i][j] == Abs(a[i][j] - b[i][j])
  {
    if !Comparable(a, b) then None
    else
      var h := AbsDiff(a, b);
      Some(Outcome(h, AbsoluteStats(h)))
  }

  /** Swapping the operands gives the same image and the same statistics. */
  lemma AbsoluteDifferenceSymmetric(a: Grid, b: Grid)
    ensures AbsoluteDifference(a, b) == AbsoluteDifference(b, a)
  {
    if Comparable(a, b) {
      AbsDiffSymmetric(a, b);
    }
  }

  /** The statistics are true facts about the result: Min and Max are the
      smallest and largest sample, 0 <= Min <= Max <= 255, `Pixels >0`
      counts the nonzero samples and is at most `Total Pixels`, and
      `Persen Diff` is that count as a percentage of `Total Pixels`, in
      [0, 100]. */
  lemma AbsoluteDifferenceStats(a: Grid, b: Grid)
    requires Comparable(a, b)
    ensures var o := AbsoluteDifference(a, b).value;
      var h, s := o.image, o.stats;
      Keys(s) == [Max, Min, TotalPixels, PixelsNonzero, PersenDiff] &&
      exists mn, mx, nz, p ::
        Get(s, Max) == Some(Int(mx)) && Get(s, Min) == Some(Int(mn)) &&
        Get(s, TotalPixels) == Some(Int(|a| * Width(a))) &&
        Get(s, PixelsNonzero) == Some(Int(nz)) && Get(s, PersenDiff) == Some(Real(p)) &&
        0 <= mn <= mx <= 255 && 0 <= nz <= |a| * Width(a) &&
        p == Percent(nz, |a| * Width(a)) && 0.0 <= p <= 100.0 &&
        (forall i, j :: 0 <= i < |h| && 0 <= j < |h[i]| ==> mn <= h[i][j] <= mx) &&
        (exists i, j :: 0 <= i < |h| && 0 <= j < |h[i]| && h[i][j] == mx) &&
        (exists i, j :: 0 <= i < |h| && 0 <= j < |h[i]| && h[i][j] == mn) &&
        nz == CountNonzero(h)
  {
    var h := AbsDiff(a, b);
    AbsoluteStatsFields(h);
    ImageMinMax(h);
    GridMaxIsMax(h);
    GridMinIsMin(h);
    CountNonzeroAtMostSize(h);
    PercentBounds(CountNonzero(h), Size(h));
  }

  /** Differencing an image with itself gives an all-zero image with no
      nonzero sample and a zero percentage. */
  lemma AbsoluteDifferenceSelf(a: Grid)
    requires IsImage(a) && Size(a) > 0
    ensures AbsoluteDifference(a, a).Some?
    ensures var o := AbsoluteDifference(a, a).value;
      (forall i, j :: 0 <= i < |o.image| && 0 <= j < |o.image[i]| ==> o.image[i][j] == 0) &&
      Get(o.stats, PixelsNonzero) == Some(Int(0)) &&
      Get(o.stats, PersenDiff) == Some(Real(0.0)) &&
      Get(o.stats, Max) == Some(Int(0))
  {
    var h := AbsDiff(a, a);
    AbsoluteStatsFields(h);
    GridMaxIsMax(h);
    CountNonzeroZero(h);
    PercentBounds(0, Size(h));
    assert h[0][0] == 0;
  }

  // ---------------------------------------------------------------------
  // Offset difference

  /** `np.clip(x, 0, 255)`. */
  function Clip(x: int): (r: int)
    ensures IsByte(r)
    ensures x < 0 ==> r == 0
    ensures x > 255 ==> r == 255
    ensures IsByte(x) ==> r == x
  {
    if x < 0 then 0 else if x > 255 then 255 else x
  }

  /** One sample of `(A - B) + K` computed without wrap-around and clipped. */
  function OffsetSample(a: int, b: int, k: int): int
  {
    Clip(a - b + k)
  }

  predicate IsInt16(x: int)
  {
    -32768 <= x <= 32767
  }

  /** Two's-complement wrap-around of an `int16` result. */
  function Wrap16(x: int): (r: int)
    ensures IsInt16(r)
  {
    (x + 32768) % 65536 - 32768
  }

  /** One sample as the source computes it: `a - b` in `int16` cannot
      overflow, but adding the constant (itself an `int16`) can, and numpy
      wraps it before the clip. */
  function OffsetSampleAsWritten(a: int, b: int, k: int): (r: int)
    requires IsByte(a) && IsByte(b) && IsInt16(k)
    ensures IsByte(r)
  {
    Clip(Wrap16(a - b + k))
  }

  /** With the constant near the top of the `int16` range the wrap shows:
      a = 1, b = 0, K = 32767 gives 0 where the clipped sum is 255. */
  lemma OffsetSampleAsWrittenWraps()
    ensures OffsetSampleAsWritten(1, 0, 32767) == 0
    ensures OffsetSample(1, 0, 32767) == 255
  {
  }

  /** For every constant from -32513 to 32512, which includes the demo's 100
      and 150, no sum leaves the `int16` range and the code as written agrees
      with the clipped sum. */
  lemma OffsetSampleAsWrittenAgrees(a: int, b: int, k: int)
    requires IsByte(a) && IsByte(b) && -32513 <= k <= 32512
    ensures OffsetSampleAsWritten(a, b, k) == OffsetSample(a, b, k)
  {
    assert Wrap16(a - b + k) == a - b + k;
  }

  function OffsetDiff(a: Grid, b: Grid, k: int): (r: Grid)
    requires SameShapeImages(a, b)
    ensures IsImage(r) && SameShape(r, a)
    ensures |r| == |a| && forall i :: 0 <= i < |a| ==> |r[i]| == |a[i]|
    ensures forall i, j :: 0 <= i < |a| && 0 <= j < |a[i]| ==> r[i][j] == OffsetSample(a[i][j], b[i][j], k)
  {
    seq(|a|, i requires 0 <= i < |a| =>
      seq(|a[i]|, j requires 0 <= j < |a[i]| => OffsetSample(a[i][j], b[i][j], k)))
  }

  /** The `Range` text `"[<min>, <max>]"`. */
  function RangeText(mn: int, mx: int): string
  {
    "[" + IntToString(mn) + ", " + IntToString(mx) + "]"
  }

  function OffsetStats(h: Grid, k: int): Stats
    requires IsRect(h) && Size(h) > 0
  {
    var mn, mx := GridMin(h), GridMax(h);
    [(Max, Int(mx)), (Min, Int(mn)), (TotalPixels, Int(Size(h))),
     (Konstanta, Int(k)), (Range, Text(RangeText(mn, mx)))]
  }

  lemma OffsetStatsFields(h: Grid, k: int)
    requires IsRect(h) && Size(h) > 0
    ensures var s := OffsetStats(h, k);
      Keys(s) == [Max, Min, TotalPixels, Konstanta, Range] &&
      Get(s, Max) == Some(Int(GridMax(h))) && Get(s, Min) == Some(Int(GridMin(h))) &&
      Get(s, TotalPixels) == Some(Int(Size(h))) && Get(s, Konstanta) == Some(Int(k)) &&
      Get(s, Range) == Some(Text(RangeText(GridMin(h), GridMax(h))))
  {
    var s := OffsetStats(h, k);
    assert UniqueKeys(s);
    GetAt(s, 0); GetAt(s, 1); GetAt(s, 2); GetAt(s, 3); GetAt(s, 4);
  }

  /** `pengurangan_dengan_konstanta`: every sample is `a - b + K` clipped to
      [0, 255]; the statistics echo K and show the result's own range. A
      constant outside the `int16` range cannot be added to an `int16` array
      (numpy raises `OverflowError`), which also gives `(None, None)`. */
  function OffsetDifference(a: Grid, b: Grid, k: int): (r: Option<Outcome>)
    ensures r.Some? <==> Comparable(a, b) && IsInt16(k)
    ensures r.Some? ==> IsImage(r.value.image) && SameShape(r.value.image, a)
    ensures r.Some? ==> forall i, j :: 0 <= i < |a| && 0 <= j < |a[i]| ==>
      r.value.image[i][j] == Clip(a[i][j] - b[i][j] + k)
  {
    if !Comparable(a, b) || !IsInt16(k) then None
    else
      var h := OffsetDiff(a, b, k);
      Some(Outcome(h, OffsetStats(h, k)))
  }

  /** The offset difference fails exactly where the absolute one does, and
      for a constant outside the `int16` range. */
  lemma OffsetDifferenceFailsLikeAbsolute(a: Grid, b: Grid, k: int)
    ensures OffsetDifference(a, b, k).None? <==> AbsoluteDifference(a, b).None? || !IsInt16(k)
  {
  }

  /** Underflow and overflow do not wrap: a negative sum gives 0, a sum above
      255 gives 255, anything else is kept exactly. */
  lemma OffsetDifferenceNoWrap(a: Grid, b: Grid, k: int, i: int, j: int)
    requires Comparable(a, b) && IsInt16(k) && 0 <= i < |a| && 0 <= j < |a[i]|
    ensures var v := OffsetDifference(a, b, k).value.image[i][j];
      var x := a[i][j] - b[i][j] + k;
      (x < 0 ==> v == 0) && (x > 255 ==> v == 255) && (0 <= x <= 255 ==> v == x)
  {
  }

  /** The record echoes K and lists Max, Min, Total Pixels, Konstanta and
      Range; the `Range` text is built from the record's own `Min` and `Max`,
      which are the smallest and largest samples of the result. */
  lemma OffsetDifferenceStats(a: Grid, b: Grid, k: int)
    requires Comparable(a, b) && IsInt16(k)
    ensures var o := OffsetDifference(a, b, k).value;
      var h, s := o.image, o.stats;
      Keys(s) == [Max, Min, TotalPixels, Konstanta, Range] &&
      Get(s, Konstanta) == Some(Int(k)) &&
      Get(s, TotalPixels) == Some(Int(|a| * Width(a))) &&
      exists mn, mx ::
        Get(s, Min) == Some(Int(mn)) && Get(s, Max) == Some(Int(mx)) &&
        Get(s, Range) == Some(Text(RangeText(mn, mx))) &&
        0 <= mn <= mx <= 255 &&
        (forall i, j :: 0 <= i < |h| && 0 <= j < |h[i]| ==> mn <= h[i][j] <= mx) &&
        (exists i, j :: 0 <= i < |h| && 0 <= j < |h[i]| && h[i][j] == mx) &&
        (exists i, j :: 0 <= i < |h| && 0 <= j < |h[i]| && h[i][j] == mn)
  {
    var h := OffsetDiff(a, b, k);
    OffsetStatsFields(h, k);
    ImageMinMax(h);
    GridMaxIsMax(h);
    GridMinIsMin(h);
  }

  // ---------------------------------------------------------------------
  // Basic statistics

  /** `hitung_statistik_dasar` without mean and standard deviation: `{}` when
      numpy fails (a ragged grid, or no sample to take a maximum of). */
  function BasicStats(g: Grid): (r: Stats)
    ensures r == [] <==> !IsRect(g) || Size(g) == 0
    ensures r != [] ==> Keys(r) == [Max, Min, TotalPixels]
  {
    if !IsRect(g) || Size(g) == 0 then []
    else [(Max, Int(GridMax(g))), (Min, Int(GridMin(g))), (TotalPixels, Int(Size(g)))]
  }

  /** `Max` and `Min` are the largest and smallest samples, attained by some
      sample, and `Total Pixels` is the sample count. */
  lemma BasicStatsFacts(g: Grid)
    requires IsRect(g) && Size(g) > 0
    ensures exists mn, mx ::
      BasicStats(g) == [(Max, Int(mx)), (Min, Int(mn)), (TotalPixels, Int(|g| * Width(g)))] &&
      (forall i, j :: 0 <= i < |g| && 0 <= j < |g[i]| ==> mn <= g[i][j] <= mx) &&
      (exists i, j :: 0 <= i < |g| && 0 <= j < |g[i]| && g[i][j] == mx) &&
      (exists i, j :: 0 <= i < |g| && 0 <= j < |g[i]| && g[i][j] == mn)
  {
    var mn, mx := GridMin(g), GridMax(g);
    GridMaxIsMax(g);
    GridMinIsMin(g);
    assert BasicStats(g) == [(Max, Int(mx)), (Min, Int(mn)), (TotalPixels, Int(|g| * Width(g)))];
  }

  // ---------------------------------------------------------------------
  // Demo

  /** `demo_pengurangan_citra`: adds each result only when its operation
      succeeded. The three operations succeed or fail together, so the table
      holds all three entries, in the program's order, or none. Every slot is
      set once, so each `results[slot] = ...` appends (see `Records.PutFresh`). */
  method DemoSubtraction(img1: Grid, img2: Grid) returns (results: Dict<Slot, Entry>)
    ensures !Comparable(img1, img2) ==> results == []
    ensures Comparable(img1, img2) ==>
      results == [(Absolut, EntryOf(AbsoluteDifference(img1, img2).value, "Pengurangan Absolut |A - B|")),
                  (Konstanta1, EntryOf(OffsetDifference(img1, img2, 100).value, "Pengurangan (A - B) + 100")),
                  (Konstanta2, EntryOf(OffsetDifference(img1, img2, 150).value, "Pengurangan (A - B) + 150"))]
  {
    results := [];
    assert IsInt16(100) && IsInt16(150);
    var absolute := AbsoluteDifference(img1, img2);
    if absolute.Some? {
      results := results + [(Absolut, EntryOf(absolute.value, "Pengurangan Absolut |A - B|"))];
    }
    var offset := OffsetDifference(img1, img2, 100);
    if offset.Some? {
      results := results + [(Konstanta1, EntryOf(offset.value, "Pengurangan (A - B) + 100"))];
    }
    var offset2 := OffsetDifference(img1, img2, 150);
    if offset2.Some? {
      results := results + [(Konstanta2, EntryOf(offset2.value, "Pengurangan (A - B) + 150"))];
    }
  }
}
