/** The motion detector's noise cleanup: `cv2.morphologyEx` closing and then
    opening with a 3x3 all-ones kernel. Dilation takes the largest sample of
    each 3x3 window and erosion the smallest; OpenCV's default morphology
    border leaves positions outside the image out of the window. */
module Morphology {
  import opened Grids

  /** The nine offsets of the 3x3 kernel, row by row; the centre is entry 4
      and entry `8 - k` is entry `k` mirrored through the centre. */
  const Offsets: seq<(int, int)> :=
    [(-1, -1), (-1, 0), (-1, 1), (0, -1), (0, 0), (0, 1), (1, -1), (1, 0), (1, 1)]

  predicate InGrid(g: Grid, i: int, j: int)
  {
    0 <= i < |g| && 0 <= j < |g[i]|
  }

  /** The sample at offset `(di, dj)` from `(i, j)`. A position outside the
      image stands for the centre sample, which is in the window anyway, so
      it changes neither the largest nor the smallest sample: outside
      positions are left out, as with OpenCV's default border. */
  function Neighbour(g: Grid, i: int, j: int, di: int, dj: int): int
    requires InGrid(g, i, j)
  {
    if InGrid(g, i + di, j + dj) then g[i + di][j + dj] else g[i][j]
  }

  /** The 3x3 window around `(i, j)`, in the order of `Offsets`. */
  function Window(g: Grid, i: int, j: int): seq<int>
    requires InGrid(g, i, j)
  {
    seq(9, k requires 0 <= k < 9 => Neighbour(g, i, j, Offsets[k].0, Offsets[k].1))
  }

  /** `cv2.dilate` with the 3x3 kernel. */
  function Dilate(g: Grid): Grid
  {
    seq(|g|, i requires 0 <= i < |g| =>
      seq(|g[i]|, j requires 0 <= j < |g[i]| => SeqMax(Window(g, i, j))))
  }

  /** `cv2.erode` with the 3x3 kernel. */
  function Erode(g: Grid): Grid
  {
    seq(|g|, i requires 0 <= i < |g| =>
      seq(|g[i]|, j requires 0 <= j < |g[i]| => SeqMin(Window(g, i, j))))
  }

  /** `MORPH_CLOSE`: dilation, then erosion. */
  function Close(g: Grid): Grid
  {
    Erode(Dilate(g))
  }

  /** `MORPH_OPEN`: erosion, then dilation. */
  function Open(g: Grid): Grid
  {
    Dilate(Erode(g))
  }

  /** The cleanup of `deteksi_motion_dengan_cleanup`: close, then open. */
  function Cleanup(g: Grid): Grid
  {
    Open(Close(g))
  }

  /** Both `a` and `b` have the same row lengths as `g`. */
  predicate SameRows(a: Grid, g: Grid)
  {
    |a| == |g| && forall i :: 0 <= i < |g| ==> |a[i]| == |g[i]|
  }

  // ---------------------------------------------------------------------
  // Facts about one window

  /** The centre of the window is the sample itself, and every entry of the
      window is a sample of the grid. */
  lemma WindowSamples(g: Grid, i: int, j: int)
    requires InGrid(g, i, j)
    ensures Window(g, i, j)[4] == g[i][j]
    ensures forall k :: 0 <= k < 9 ==>
      exists i', j' :: InGrid(g, i', j') && Window(g, i, j)[k] == g[i'][j']
  {
    var w := Window(g, i, j);
    forall k | 0 <= k < 9
      ensures exists i', j' :: InGrid(g, i', j') && w[k] == g[i'][j']
    {
      var (di, dj) := Offsets[k];
      if InGrid(g, i + di, j + dj) {
        assert w[k] == g[i + di][j + dj];
      } else {
        assert w[k] == g[i][j];
      }
    }
  }

  /** Looking back from a neighbour by the mirrored offset reaches the centre. */
  lemma WindowMirror(g: Grid, i: int, j: int, k: int)
    requires InGrid(g, i, j) && 0 <= k < 9
    requires InGrid(g, i + Offsets[k].0, j + Offsets[k].1)
    ensures Window(g, i + Offsets[k].0, j + Offsets[k].1)[8 - k] == g[i][j]
  {
    assert Offsets[8 - k] == (-Offsets[k].0, -Offsets[k].1);
  }

  /** Windows of two grids with the same row lengths cover the same positions,
      so a grid nowhere larger than another has windows nowhere larger. */
  lemma WindowLe(a: Grid, b: Grid, i: int, j: int)
    requires PointwiseLe(a, b) && InGrid(a, i, j)
    ensures forall k :: 0 <= k < 9 ==> Window(a, i, j)[k] <= Window(b, i, j)[k]
  {
  }

  // ---------------------------------------------------------------------
  // Dilation and erosion

  /** Dilation and erosion keep the shape. */
  lemma MorphShape(g: Grid)
    ensures SameRows(Dilate(g), g) && SameRows(Erode(g), g)
    ensures IsRect(g) ==>
      (IsRect(Dilate(g)) && IsRect(Erode(g)) && SameShape(Dilate(g), g) && SameShape(Erode(g), g))
  {
    if IsRect(g) && |g| > 0 {
      assert |Dilate(g)[0]| == |g[0]| && |Erode(g)[0]| == |g[0]|;
    }
  }

  /** Dilation never lowers a sample. */
  lemma DilateExtensive(g: Grid)
    ensures PointwiseLe(g, Dilate(g))
  {
    forall i, j | InGrid(g, i, j) ensures g[i][j] <= Dilate(g)[i][j] {
      WindowSamples(g, i, j);
      SeqMaxIsMax(Window(g, i, j));
    }
  }

  /** Erosion never raises a sample. */
  lemma ErodeAntiExtensive(g: Grid)
    ensures PointwiseLe(Erode(g), g)
  {
    forall i, j | InGrid(g, i, j) ensures Erode(g)[i][j] <= g[i][j] {
      WindowSamples(g, i, j);
      SeqMinIsMin(Window(g, i, j));
    }
  }

  /** Dilation is monotone. */
  lemma DilateMono(a: Grid, b: Grid)
    requires PointwiseLe(a, b)
    ensures PointwiseLe(Dilate(a), Dilate(b))
  {
    forall i, j | InGrid(a, i, j) ensures Dilate(a)[i][j] <= Dilate(b)[i][j] {
      var wa, wb := Window(a, i, j), Window(b, i, j);
      WindowLe(a, b, i, j);
      SeqMaxIsMax(wa);
      SeqMaxIsMax(wb);
      var k :| 0 <= k < 9 && wa[k] == SeqMax(wa);
    }
  }

  /** Erosion is monotone. */
  lemma ErodeMono(a: Grid, b: Grid)
    requires PointwiseLe(a, b)
    ensures PointwiseLe(Erode(a), Erode(b))
  {
    forall i, j | InGrid(a, i, j) ensures Erode(a)[i][j] <= Erode(b)[i][j] {
      var wa, wb := Window(a, i, j), Window(b, i, j);
      WindowLe(a, b, i, j);
      SeqMinIsMin(wa);
      SeqMinIsMin(wb);
      var k :| 0 <= k < 9 && wb[k] == SeqMin(wb);
    }
  }

  /** Dilation and erosion of a mask are masks: every result sample is one of
      the window's samples. */
  lemma MorphMask(g: Grid)
    requires IsMask(g)
    ensures IsMask(Dilate(g)) && IsMask(Erode(g))
  {
    MorphShape(g);
    forall i, j | InGrid(g, i, j)
      ensures Dilate(g)[i][j] == 0 || Dilate(g)[i][j] == 255
      ensures Erode(g)[i][j] == 0 || Erode(g)[i][j] == 255
    {
      var w := Window(g, i, j);
      WindowSamples(g, i, j);
      SeqMaxIsMax(w);
      SeqMinIsMin(w);
      var k :| 0 <= k < 9 && w[k] == SeqMax(w);
      var k' :| 0 <= k' < 9 && w[k'] == SeqMin(w);
    }
  }

  /** A bound above every sample bounds every dilated sample. */
  lemma DilateBounded(g: Grid, c: int)
    requires forall i, j :: InGrid(g, i, j) ==> g[i][j] <= c
    ensures forall i, j :: InGrid(g, i, j) ==> Dilate(g)[i][j] <= c
  {
    forall i, j | InGrid(g, i, j) ensures Dilate(g)[i][j] <= c {
      var w := Window(g, i, j);
      WindowSamples(g, i, j);
      SeqMaxIsMax(w);
      var k :| 0 <= k < 9 && w[k] == SeqMax(w);
    }
  }

  // ---------------------------------------------------------------------
  // Closing and opening

  /** Every sample of the dilated window around `(i, j)` is at least the
      sample at `(i, j)`: that sample is in the window of each neighbour. */
  lemma DilatedNeighbourAbove(g: Grid, i: int, j: int, k: int)
    requires InGrid(g, i, j) && 0 <= k < 9
    ensures g[i][j] <= Window(Dilate(g), i, j)[k]
  {
    var d := Dilate(g);
    var (di, dj) := Offsets[k];
    if InGrid(g, i + di, j + dj) {
      WindowMirror(g, i, j, k);
      SeqMaxIsMax(Window(g, i + di, j + dj));
      assert Window(d, i, j)[k] == d[i + di][j + dj];
    } else {
      WindowSamples(g, i, j);
      SeqMaxIsMax(Window(g, i, j));
      assert Window(d, i, j)[k] == d[i][j];
    }
  }

  /** Every sample of the eroded window around `(i, j)` is at most the
      sample at `(i, j)`. */
  lemma ErodedNeighbourBelow(g: Grid, i: int, j: int, k: int)
    requires InGrid(g, i, j) && 0 <= k < 9
    ensures Window(Erode(g), i, j)[k] <= g[i][j]
  {
    var e := Erode(g);
    var (di, dj) := Offsets[k];
    if InGrid(g, i + di, j + dj) {
      WindowMirror(g, i, j, k);
      SeqMinIsMin(Window(g, i + di, j + dj));
      assert Window(e, i, j)[k] == e[i + di][j + dj];
    } else {
      WindowSamples(g, i, j);
      SeqMinIsMin(Window(g, i, j));
      assert Window(e, i, j)[k] == e[i][j];
    }
  }

  /** Closing never removes a foreground sample: it never lowers a sample. */
  lemma CloseExtensive(g: Grid)
    ensures PointwiseLe(g, Close(g))
  {
    MorphShape(g);
    forall i, j | InGrid(g, i, j) ensures g[i][j] <= Close(g)[i][j] {
      var w := Window(Dilate(g), i, j);
      forall k | 0 <= k < 9 ensures g[i][j] <= w[k] {
        DilatedNeighbourAbove(g, i, j, k);
      }
      SeqMinIsMin(w);
      var k :| 0 <= k < 9 && w[k] == SeqMin(w);
    }
  }

  /** Opening never adds a foreground sample: it never raises a sample. */
  lemma OpenAntiExtensive(g: Grid)
    ensures PointwiseLe(Open(g), g)
  {
    MorphShape(g);
    MorphShape(Erode(g));
    forall i, j | InGrid(g, i, j) ensures Open(g)[i][j] <= g[i][j] {
      var w := Window(Erode(g), i, j);
      forall k | 0 <= k < 9 ensures w[k] <= g[i][j] {
        ErodedNeighbourBelow(g, i, j, k);
      }
      SeqMaxIsMax(w);
      var k :| 0 <= k < 9 && w[k] == SeqMax(w);
    }
  }

  /** The cleanup of a mask is a mask of the same shape. */
  lemma CleanupMask(g: Grid)
    requires IsMask(g)
    ensures IsMask(Cleanup(g)) && SameShape(Cleanup(g), g) && SameRows(Cleanup(g), g)
  {
    var d := Dilate(g);
    MorphMask(g);
    MorphShape(g);
    var c := Erode(d);
    MorphMask(d);
    MorphShape(d);
    var e := Erode(c);
    MorphMask(c);
    MorphShape(c);
    MorphMask(e);
    MorphShape(e);
  }

  /** The cleanup is monotone: more foreground in never gives less out. */
  lemma CleanupMono(a: Grid, b: Grid)
    requires PointwiseLe(a, b)
    ensures PointwiseLe(Cleanup(a), Cleanup(b))
  {
    DilateMono(a, b);
    ErodeMono(Dilate(a), Dilate(b));
    ErodeMono(Close(a), Close(b));
    DilateMono(Erode(Close(a)), Erode(Close(b)));
  }

  /** An empty mask stays empty. */
  lemma CleanupZero(g: Grid)
    requires IsMask(g) && forall i, j :: InGrid(g, i, j) ==> g[i][j] == 0
    ensures forall i, j :: InGrid(g, i, j) ==> Cleanup(g)[i][j] == 0
  {
    var d := Dilate(g);
    DilateBounded(g, 0);
    ErodeAntiExtensive(d);
    var c := Erode(d);
    OpenAntiExtensive(c);
    CleanupMask(g);
  }

  /** Entry `k` of the window of the eroded grid. */
  lemma ErodedWindowEntry(g: Grid, i: int, j: int, k: int)
    requires InGrid(g, i, j) && 0 <= k < 9
    ensures var (di, dj) := Offsets[k];
      Window(Erode(g), i, j)[k] ==
        if InGrid(g, i + di, j + dj) then Erode(g)[i + di][j + dj] else Erode(g)[i][j]
  {
  }

  /** An eroded sample is at most each sample of its window. */
  lemma ErodeAtMost(g: Grid, i: int, j: int, k: int)
    requires InGrid(g, i, j) && 0 <= k < 9
    requires InGrid(g, i + Offsets[k].0, j + Offsets[k].1)
    ensures Erode(g)[i][j] <= g[i + Offsets[k].0][j + Offsets[k].1]
  {
    var w := Window(g, i, j);
    assert w[k] == g[i + Offsets[k].0][j + Offsets[k].1];
    SeqMinIsMin(w);
  }

  /** Around a foreground sample whose in-image neighbours are all background,
      and which has a neighbour `k0` inside the image, erosion leaves only
      background: each eroded window sample sees a background sample. */
  lemma ErodedNeighbourBackground(g: Grid, i: int, j: int, k0: int, k: int)
    requires InGrid(g, i, j) && 0 <= k0 < 9 && k0 != 4 && 0 <= k < 9
    requires InGrid(g, i + Offsets[k0].0, j + Offsets[k0].1)
    requires forall k :: 0 <= k < 9 && k != 4 && InGrid(g, i + Offsets[k].0, j + Offsets[k].1) ==>
      g[i + Offsets[k].0][j + Offsets[k].1] == 0
    ensures Window(Erode(g), i, j)[k] <= 0
  {
    var (di, dj) := Offsets[k];
    ErodedWindowEntry(g, i, j, k);
    if k != 4 && InGrid(g, i + di, j + dj) {
      // The neighbour's own window holds the neighbour, which is background.
      ErodeAtMost(g, i + di, j + dj, 4);
    } else {
      // Here the entry is the eroded centre, whose window holds neighbour k0.
      assert Window(Erode(g), i, j)[k] == Erode(g)[i][j];
      ErodeAtMost(g, i, j, k0);
    }
  }

  /** Opening removes a foreground sample whose in-image neighbours are all
      background, as long as the image has a second sample. */
  lemma OpenRemovesIsolated(g: Grid, i: int, j: int)
    requires IsMask(g) && InGrid(g, i, j) && Size(g) >= 2
    requires forall k :: 0 <= k < 9 && k != 4 && InGrid(g, i + Offsets[k].0, j + Offsets[k].1) ==>
      g[i + Offsets[k].0][j + Offsets[k].1] == 0
    ensures Open(g)[i][j] == 0
  {
    var e := Erode(g);
    MorphShape(g);
    MorphMask(g);
    MorphShape(e);
    MorphMask(e);
    // Some neighbour of (i, j) lies inside the image.
    var k0: int;
    if |g| >= 2 {
      k0 := if i + 1 < |g| then 7 else 1;
    } else {
      assert Width(g) >= 2 && |g[i]| == Width(g);
      k0 := if j + 1 < |g[i]| then 5 else 3;
    }
    assert InGrid(g, i + Offsets[k0].0, j + Offsets[k0].1);
    // Every sample of the eroded window is background.
    var w := Window(e, i, j);
    forall k | 0 <= k < 9 ensures w[k] <= 0 {
      ErodedNeighbourBackground(g, i, j, k0, k);
    }
    SeqMaxIsMax(w);
    var k :| 0 <= k < 9 && w[k] == SeqMax(w);
  }
}
