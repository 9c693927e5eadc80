/** Grayscale images as rectangular grids of samples, and the whole-image
    reductions the program takes from numpy: sample count, count of nonzero
    samples, largest and smallest sample. */
module Grids {

  /** A 2-D grid of samples, stored row by row. */
  type Grid = seq<seq<int>>

  /** Number of columns (numpy's `shape[1]`); a grid without rows has none. */
  function Width(g: Grid): nat
  {
    if |g| == 0 then 0 else |g[0]|
  }

  /** Every row has the same length, as in a 2-D numpy array. */
  predicate IsRect(g: Grid)
  {
    forall i :: 0 <= i < |g| ==> |g[i]| == Width(g)
  }

  predicate IsByte(x: int)
  {
    0 <= x <= 255
  }

  /** An 8-bit grayscale image (a 2-D `uint8` array). */
  predicate IsImage(g: Grid)
  {
    IsRect(g) && forall i, j :: 0 <= i < |g| && 0 <= j < |g[i]| ==> IsByte(g[i][j])
  }

  /** A binary mask: an image whose samples are all 0 or 255. */
  predicate IsMask(g: Grid)
  {
    IsRect(g) && forall i, j :: 0 <= i < |g| && 0 <= j < |g[i]| ==> g[i][j] == 0 || g[i][j] == 255
  }

  /** numpy's `a.shape == b.shape` for 2-D arrays. */
  predicate SameShape(a: Grid, b: Grid)
  {
    |a| == |b| && Width(a) == Width(b)
  }

  /** numpy's `size`: the number of samples of a rectangular grid. */
  function Size(g: Grid): nat
  {
    |g| * Width(g)
  }

  /** Two 8-bit images of one shape: the operands OpenCV's two-image calls
      (`cv2.absdiff`, `cv2.bitwise_*`) accept. */
  predicate SameShapeImages(a: Grid, b: Grid)
  {
    IsImage(a) && IsImage(b) && SameShape(a, b)
  }

  /** Two 8-bit images of one shape with at least one sample: exactly the
      inputs on which the program's two-image operations succeed. */
  predicate Comparable(a: Grid, b: Grid)
  {
    SameShapeImages(a, b) && Size(a) > 0
  }

  /** `a` is nowhere larger than `b`, sample by sample. */
  predicate PointwiseLe(a: Grid, b: Grid)
  {
    |a| == |b| &&
    (forall i :: 0 <= i < |a| ==> |a[i]| == |b[i]|) &&
    forall i, j :: 0 <= i < |a| && 0 <= j < |a[i]| ==> a[i][j] <= b[i][j]
  }

  function Abs(x: int): int
  {
    if x < 0 then -x else x
  }

  lemma MaskIsImage(g: Grid)
    requires IsMask(g)
    ensures IsImage(g)
  {
  }

  // ---------------------------------------------------------------------
  // Counting nonzero samples (numpy's count_nonzero)

  function CountRow(row: seq<int>): (n: nat)
    ensures n <= |row|
  {
    if row == [] then 0
    else CountRow(row[..|row| - 1]) + (if row[|row| - 1] != 0 then 1 else 0)
  }

  function CountNonzero(g: Grid): nat
  {
    if g == [] then 0 else CountNonzero(g[..|g| - 1]) + CountRow(g[|g| - 1])
  }

  /** At most one nonzero sample per sample of the grid. */
  lemma {:induction false} CountNonzeroAtMostSize(g: Grid)
    requires IsRect(g)
    ensures CountNonzero(g) <= Size(g)
  {
    CountRowsBound(g, Width(g));
  }

  lemma {:induction false} CountRowsBound(g: Grid, w: nat)
    requires forall i :: 0 <= i < |g| ==> |g[i]| == w
    ensures CountNonzero(g) <= |g| * w
  {
    if g != [] {
      CountRowsBound(g[..|g| - 1], w);
      assert CountRow(g[|g| - 1]) <= w;
      assert (|g| - 1) * w + w == |g| * w;
    }
  }

  /** A row has no nonzero sample exactly when all its samples are zero. */
  lemma {:induction false} CountRowZero(row: seq<int>)
    ensures CountRow(row) == 0 <==> forall j :: 0 <= j < |row| ==> row[j] == 0
  {
    if row != [] {
      CountRowZero(row[..|row| - 1]);
      assert forall j :: 0 <= j < |row| - 1 ==> row[..|row| - 1][j] == row[j];
    }
  }

  /** The grid count is zero exactly when every sample is zero. */
  lemma {:induction false} CountNonzeroZero(g: Grid)
    ensures CountNonzero(g) == 0 <==> forall i, j :: 0 <= i < |g| && 0 <= j < |g[i]| ==> g[i][j] == 0
  {
    if g != [] {
      var n := |g| - 1;
      CountNonzeroZero(g[..n]);
      CountRowZero(g[n]);
      assert forall i :: 0 <= i < n ==> g[..n][i] == g[i];
    }
  }

  lemma {:induction false} CountRowMono(a: seq<int>, b: seq<int>)
    requires |a| == |b|
    requires forall j :: 0 <= j < |a| && a[j] != 0 ==> b[j] != 0
    ensures CountRow(a) <= CountRow(b)
  {
    if a != [] {
      var n := |a| - 1;
      assert forall j :: 0 <= j < n ==> a[..n][j] == a[j] && b[..n][j] == b[j];
      CountRowMono(a[..n], b[..n]);
    }
  }

  /** Wherever `a` is nonzero `b` is too, so `b` has at least as many nonzero samples. */
  lemma {:induction false} CountNonzeroMono(a: Grid, b: Grid)
    requires |a| == |b| && forall i :: 0 <= i < |a| ==> |a[i]| == |b[i]|
    requires forall i, j :: 0 <= i < |a| && 0 <= j < |a[i]| && a[i][j] != 0 ==> b[i][j] != 0
    ensures CountNonzero(a) <= CountNonzero(b)
  {
    if a != [] {
      var n := |a| - 1;
      assert forall i :: 0 <= i < n ==> a[..n][i] == a[i] && b[..n][i] == b[i];
      CountNonzeroMono(a[..n], b[..n]);
      CountRowMono(a[n], b[n]);
    }
  }

  // ---------------------------------------------------------------------
  // Largest and smallest sample (numpy's max and min)

  /** The largest element of a non-empty sequence (see `SeqMaxIsMax`). */
  function SeqMax(s: seq<int>): int
    requires |s| > 0
  {
    if |s| == 1 then s[0]
    else
      var m' := SeqMax(s[..|s| - 1]);
      if s[|s| - 1] > m' then s[|s| - 1] else m'
  }

  /** The smallest element of a non-empty sequence (see `SeqMinIsMin`). */
  function SeqMin(s: seq<int>): int
    requires |s| > 0
  {
    if |s| == 1 then s[0]
    else
      var m' := SeqMin(s[..|s| - 1]);
      if s[|s| - 1] < m' then s[|s| - 1] else m'
  }

  /** The largest element bounds every element and is one of them. */
  lemma {:induction false} SeqMaxIsMax(s: seq<int>)
    requires |s| > 0
    ensures forall k :: 0 <= k < |s| ==> s[k] <= SeqMax(s)
    ensures SeqMax(s) in s
  {
    if |s| > 1 {
      var t := s[..|s| - 1];
      SeqMaxIsMax(t);
      assert forall k :: 0 <= k < |t| ==> t[k] == s[k];
      assert s == t + [s[|s| - 1]];
    }
  }

  /** The smallest element bounds every element from below and is one of them. */
  lemma {:induction false} SeqMinIsMin(s: seq<int>)
    requires |s| > 0
    ensures forall k :: 0 <= k < |s| ==> SeqMin(s) <= s[k]
    ensures SeqMin(s) in s
  {
    if |s| > 1 {
      var t := s[..|s| - 1];
      SeqMinIsMin(t);
      assert forall k :: 0 <= k < |t| ==> t[k] == s[k];
      assert s == t + [s[|s| - 1]];
    }
  }

  /** numpy's `max` over a non-empty rectangular grid. */
  function GridMax(g: Grid): int
    requires IsRect(g) && Size(g) > 0
  {
    var last := SeqMax(g[|g| - 1]);
    if |g| == 1 then last
    else
      var m' := GridMax(g[..|g| - 1]);
      if last > m' then last else m'
  }

  /** numpy's `min` over a non-empty rectangular grid. */
  function GridMin(g: Grid): int
    requires IsRect(g) && Size(g) > 0
  {
    var last := SeqMin(g[|g| - 1]);
    if |g| == 1 then last
    else
      var m' := GridMin(g[..|g| - 1]);
      if last < m' then last else m'
  }

  /** The grid maximum bounds every sample and some sample attains it. */
  lemma {:induction false} GridMaxIsMax(g: Grid)
    requires IsRect(g) && Size(g) > 0
    ensures forall i, j :: 0 <= i < |g| && 0 <= j < |g[i]| ==> g[i][j] <= GridMax(g)
    ensures exists i, j :: 0 <= i < |g| && 0 <= j < |g[i]| && g[i][j] == GridMax(g)
  {
    var n := |g| - 1;
    var last := SeqMax(g[n]);
    SeqMaxIsMax(g[n]);
    var j :| 0 <= j < |g[n]| && g[n][j] == last;
    if n == 0 {
      assert GridMax(g) == last;
    } else {
      var top := g[..n];
      assert forall i :: 0 <= i < n ==> top[i] == g[i];
      assert IsRect(top) && Size(top) > 0;
      GridMaxIsMax(top);
      var m' := GridMax(top);
      assert GridMax(g) == if last > m' then last else m';
      var i', j' :| 0 <= i' < n && 0 <= j' < |top[i']| && top[i'][j'] == m';
      assert g[i'][j'] == m';
      forall i, j | 0 <= i < |g| && 0 <= j < |g[i]| ensures g[i][j] <= GridMax(g) {
        if i < n {
          assert top[i][j] == g[i][j];
        }
      }
    }
  }

  /** The grid minimum bounds every sample from below and some sample attains it. */
  lemma {:induction false} GridMinIsMin(g: Grid)
    requires IsRect(g) && Size(g) > 0
    ensures forall i, j :: 0 <= i < |g| && 0 <= j < |g[i]| ==> GridMin(g) <= g[i][j]
    ensures exists i, j :: 0 <= i < |g| && 0 <= j < |g[i]| && g[i][j] == GridMin(g)
  {
    var n := |g| - 1;
    var last := SeqMin(g[n]);
    SeqMinIsMin(g[n]);
    var j :| 0 <= j < |g[n]| && g[n][j] == last;
    if n == 0 {
      assert GridMin(g) == last;
    } else {
      var top := g[..n];
      assert forall i :: 0 <= i < n ==> top[i] == g[i];
      assert IsRect(top) && Size(top) > 0;
      GridMinIsMin(top);
      var m' := GridMin(top);
      assert GridMin(g) == if last < m' then last else m';
      var i', j' :| 0 <= i' < n && 0 <= j' < |top[i']| && top[i'][j'] == m';
      assert g[i'][j'] == m';
      forall i, j | 0 <= i < |g| && 0 <= j < |g[i]| ensures GridMin(g) <= g[i][j] {
        if i < n {
          assert top[i][j] == g[i][j];
        }
      }
    }
  }

  /** On an 8-bit image the smallest sample is at most the largest, and both
      are bytes. */
  lemma ImageMinMax(g: Grid)
    requires IsImage(g) && Size(g) > 0
    ensures 0 <= GridMin(g) <= GridMax(g) <= 255
  {
    GridMaxIsMax(g);
    GridMinIsMin(g);
    assert g[0][0] in g[0];
  }
}
