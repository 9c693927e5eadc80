/** Binarisation of grayscale images and the Boolean algebra of the resulting
    {0,255} masks: `cv2.threshold` with `THRESH_BINARY`, `cv2.bitwise_and`,
    `bitwise_or`, `bitwise_xor` and `bitwise_not`, their statistics records
    and the demo that collects them. */
module BooleanOps {
  import opened Grids
  import opened Records

  // ---------------------------------------------------------------------
  // Binarisation

  /** `THRESH_BINARY` with maximum value 255, sample by sample. */
  function ThresholdMask(g: Grid, t: int): Grid
  {
    seq(|g|, i requires 0 <= i < |g| =>
      seq(|g[i]|, j requires 0 <= j < |g[i]| => if g[i][j] > t then 255 else 0))
  }

  /** The thresholded grid is a mask of the same shape whose white samples
      are exactly those strictly above the threshold: a sample equal to the
      threshold turns black. */
  lemma ThresholdMaskSpec(g: Grid, t: int)
    requires IsRect(g)
    ensures var m := ThresholdMask(g, t);
      IsMask(m) && SameShape(m, g) &&
      (forall i :: 0 <= i < |g| ==> |m[i]| == |g[i]|) &&
      forall i, j :: 0 <= i < |g| && 0 <= j < |g[i]| ==>
        (m[i][j] == 255 <==> g[i][j] > t) && (m[i][j] == 0 <==> g[i][j] <= t)
  {
    var m := ThresholdMask(g, t);
    if |g| > 0 {
      assert |m[0]| == |g[0]|;
    }
  }

  /** An array `cv2.threshold` binarises: an 8-bit image with at least one
      sample. */
  predicate Binarizable(g: Grid)
  {
    IsImage(g) && Size(g) > 0
  }

  /** `binarisasi_gambar`: the mask and the threshold it used, or no mask
      when OpenCV rejects the array (anything that is not an 8-bit image) or
      gives no array back (an image without samples). */
  function Binarize(g: Grid, t: int): (r: (Option<Grid>, int))
    ensures r.1 == t
    ensures r.0.Some? <==> IsImage(g) && Size(g) > 0
    ensures r.0.Some? ==> var m := r.0.value;
      IsMask(m) && SameShape(m, g) &&
      (forall i :: 0 <= i < |g| ==> |m[i]| == |g[i]|) &&
      forall i, j :: 0 <= i < |g| && 0 <= j < |g[i]| ==> (m[i][j] == 255 <==> g[i][j] > t)
  {
    if Binarizable(g) then
      ThresholdMaskSpec(g, t);
      (Some(ThresholdMask(g, t)), t)
    else (None, t)
  }

  /** Binarising a mask again with any threshold below 255 gives the mask back. */
  lemma BinarizeMask(m: Grid, t: int)
    requires IsMask(m) && Size(m) > 0 && 0 <= t < 255
    ensures Binarize(m, t).0 == Some(m)
  {
    MaskIsImage(m);
    var r := ThresholdMask(m, t);
    ThresholdMaskSpec(m, t);
    forall i | 0 <= i < |m| ensures r[i] == m[i] {
      assert |r[i]| == |m[i]|;
      forall j | 0 <= j < |m[i]| ensures r[i][j] == m[i][j] {
        assert m[i][j] == 0 || m[i][j] == 255;
      }
    }
    assert r == m;
  }

  /** Raising the threshold never turns a black sample white. */
  lemma ThresholdMaskAntitone(g: Grid, s: int, t: int)
    requires IsRect(g) && s <= t
    ensures PointwiseLe(ThresholdMask(g, t), ThresholdMask(g, s))
  {
    ThresholdMaskSpec(g, s);
    ThresholdMaskSpec(g, t);
  }

  // ---------------------------------------------------------------------
  // Bitwise operations on bytes

  function ByteAnd(x: int, y: int): int
    requires IsByte(x) && IsByte(y)
  {
    ((x as bv8) & (y as bv8)) as int
  }

  function ByteOr(x: int, y: int): int
    requires IsByte(x) && IsByte(y)
  {
    ((x as bv8) | (y as bv8)) as int
  }

  function ByteXor(x: int, y: int): int
    requires IsByte(x) && IsByte(y)
  {
    ((x as bv8) ^ (y as bv8)) as int
  }

  function ByteNot(x: int): int
    requires IsByte(x)
  {
    (!(x as bv8)) as int
  }

  predicate IsBit(x: int)
  {
    x == 0 || x == 255
  }

  /** On mask samples the bitwise operations are the Boolean connectives,
      with 255 as true and 0 as false. */
  lemma BitLogic(x: int, y: int)
    requires IsBit(x) && IsBit(y)
    ensures ByteAnd(x, y) == (if x == 255 && y == 255 then 255 else 0)
    ensures ByteOr(x, y) == (if x == 255 || y == 255 then 255 else 0)
    ensures ByteXor(x, y) == (if (x == 255) != (y == 255) then 255 else 0)
    ensures ByteNot(x) == 255 - x
  {
    if x == 0 {
      assert (0 as bv8) == 0;
    }
    if y == 0 {
      assert (0 as bv8) == 0;
    }
  }

  // ---------------------------------------------------------------------
  // Bitwise operations on masks

  function AndMask(a: Grid, b: Grid): Grid
    requires SameShapeImages(a, b)
  {
    seq(|a|, i requires 0 <= i < |a| =>
      seq(|a[i]|, j requires 0 <= j < |a[i]| => ByteAnd(a[i][j], b[i][j])))
  }

  function OrMask(a: Grid, b: Grid): Grid
    requires SameShapeImages(a, b)
  {
    seq(|a|, i requires 0 <= i < |a| =>
      seq(|a[i]|, j requires 0 <= j < |a[i]| => ByteOr(a[i][j], b[i][j])))
  }

  function XorMask(a: Grid, b: Grid): Grid
    requires SameShapeImages(a, b)
  {
    seq(|a|, i requires 0 <= i < |a| =>
      seq(|a[i]|, j requires 0 <= j < |a[i]| => ByteXor(a[i][j], b[i][j])))
  }

  function NotMask(a: Grid): Grid
    requires IsImage(a)
  {
    seq(|a|, i requires 0 <= i < |a| =>
      seq(|a[i]|, j requires 0 <= j < |a[i]| => ByteNot(a[i][j])))
  }

  /** On two masks of one shape, AND, OR and XOR are masks of that shape that
      are white exactly where both, at least one, and exactly one operand is
      white. */
  lemma MaskLogic(a: Grid, b: Grid)
    requires IsMask(a) && IsMask(b) && SameShape(a, b)
    ensures SameShapeImages(a, b)
    ensures IsMask(AndMask(a, b)) && SameShape(AndMask(a, b), a)
    ensures IsMask(OrMask(a, b)) && SameShape(OrMask(a, b), a)
    ensures IsMask(XorMask(a, b)) && SameShape(XorMask(a, b), a)
    ensures forall i, j :: 0 <= i < |a| && 0 <= j < |a[i]| ==>
      (AndMask(a, b)[i][j] == 255 <==> a[i][j] == 255 && b[i][j] == 255) &&
      (OrMask(a, b)[i][j] == 255 <==> a[i][j] == 255 || b[i][j] == 255) &&
      (XorMask(a, b)[i][j] == 255 <==> (a[i][j] == 255) != (b[i][j] == 255))
  {
    MaskIsImage(a);
    MaskIsImage(b);
    var n, o, x := AndMask(a, b), OrMask(a, b), XorMask(a, b);
    forall i, j | 0 <= i < |a| && 0 <= j < |a[i]|
      ensures IsBit(n[i][j]) && IsBit(o[i][j]) && IsBit(x[i][j])
      ensures (n[i][j] == 255 <==> a[i][j] == 255 && b[i][j] == 255)
      ensures (o[i][j] == 255 <==> a[i][j] == 255 || b[i][j] == 255)
      ensures (x[i][j] == 255 <==> (a[i][j] == 255) != (b[i][j] == 255))
    {
      BitLogic(a[i][j], b[i][j]);
    }
    if |a| > 0 {
      assert |n[0]| == |o[0]| == |x[0]| == |a[0]|;
    }
  }

  /** NOT of a mask is a mask of the same shape, `255 - b` sample by sample,
      so it is white exactly where the operand is black. */
  lemma NotLogic(a: Grid)
    requires IsMask(a)
    ensures IsImage(a)
    ensures IsMask(NotMask(a)) && SameShape(NotMask(a), a)
    ensures forall i, j :: 0 <= i < |a| && 0 <= j < |a[i]| ==>
      NotMask(a)[i][j] == 255 - a[i][j] && (NotMask(a)[i][j] == 255 <==> a[i][j] == 0)
  {
    MaskIsImage(a);
    var r := NotMask(a);
    forall i, j | 0 <= i < |a| && 0 <= j < |a[i]| ensures r[i][j] == 255 - a[i][j] {
      BitLogic(a[i][j], a[i][j]);
    }
    if |a| > 0 {
      assert |r[0]| == |a[0]|;
    }
  }

  /** Complementing a mask twice gives it back. */
  lemma NotNot(a: Grid)
    requires IsMask(a)
    ensures IsMask(NotMask(a)) && NotMask(NotMask(a)) == a
  {
    NotLogic(a);
    var r := NotMask(a);
    NotLogic(r);
    var rr := NotMask(r);
    forall i | 0 <= i < |a| ensures rr[i] == a[i] {
    }
  }

  /** De Morgan: NOT (A AND B) is (NOT A) OR (NOT B), and NOT (A OR B) is
      (NOT A) AND (NOT B). */
  lemma DeMorgan(a: Grid, b: Grid)
    requires IsMask(a) && IsMask(b) && SameShape(a, b)
    ensures SameShapeImages(a, b)
    ensures SameShapeImages(NotMask(a), NotMask(b))
    ensures NotMask(AndMask(a, b)) == OrMask(NotMask(a), NotMask(b))
    ensures NotMask(OrMask(a, b)) == AndMask(NotMask(a), NotMask(b))
  {
    MaskLogic(a, b);
    NotLogic(a);
    NotLogic(b);
    var na, nb := NotMask(a), NotMask(b);
    MaskLogic(na, nb);
    NotLogic(AndMask(a, b));
    NotLogic(OrMask(a, b));
    var l1, r1 := NotMask(AndMask(a, b)), OrMask(na, nb);
    var l2, r2 := NotMask(OrMask(a, b)), AndMask(na, nb);
    forall i | 0 <= i < |a| ensures l1[i] == r1[i] && l2[i] == r2[i] {
      assert |l1[i]| == |r1[i]| == |l2[i]| == |r2[i]| == |a[i]|;
      forall j | 0 <= j < |a[i]| ensures l1[i][j] == r1[i][j] && l2[i][j] == r2[i][j] {
        assert IsBit(l1[i][j]) && IsBit(r1[i][j]) && IsBit(l2[i][j]) && IsBit(r2[i][j]);
      }
    }
  }

  /** XOR is OR minus AND: the samples that are white in the union and black
      in the intersection. */
  lemma XorIsOrMinusAnd(a: Grid, b: Grid)
    requires IsMask(a) && IsMask(b) && SameShape(a, b)
    ensures SameShapeImages(a, b)
    ensures IsMask(OrMask(a, b)) && IsMask(AndMask(a, b))
    ensures SameShapeImages(OrMask(a, b), NotMask(AndMask(a, b)))
    ensures XorMask(a, b) == AndMask(OrMask(a, b), NotMask(AndMask(a, b)))
  {
    MaskLogic(a, b);
    var o, n := OrMask(a, b), AndMask(a, b);
    NotLogic(n);
    var nn := NotMask(n);
    MaskLogic(o, nn);
    var l, r := XorMask(a, b), AndMask(o, nn);
    forall i | 0 <= i < |a| ensures l[i] == r[i] {
      assert |l[i]| == |r[i]| == |a[i]|;
      forall j | 0 <= j < |a[i]| ensures l[i][j] == r[i][j] {
        assert IsBit(l[i][j]) && IsBit(r[i][j]);
      }
    }
  }

  // ---------------------------------------------------------------------
  // Statistics of a binary image

  /** The `Threshold` text `"<t>/255"`. */
  function ThresholdText(t: int): string
  {
    IntToString(t) + "/255"
  }

  /** The `Ukuran` text `"<width>x<height>"`. */
  function SizeText(m: Grid): string
  {
    IntToString(Width(m)) + "x" + IntToString(|m|)
  }

  /** `hitung_statistik_biner`: `{}` when there is no sample, since the
      percentage then divides by zero. */
  function BinaryStats(m: Grid, name: string, t: int): (r: Stats)
    requires IsRect(m)
    ensures r == [] <==> Size(m) == 0
  {
    if Size(m) == 0 then []
    else
      var white, total := CountNonzero(m), Size(m);
      [(PixelPutih, Int(white)), (PixelHitam, Int(total - white)),
       (PersentasePutih, Real(Percent(white, total))), (Threshold, Text(ThresholdText(t))),
       (Operasi, Text(name)), (Ukuran, Text(SizeText(m)))]
  }

  /** The record lists its six keys in order; the white count is the number
      of nonzero samples, at most the sample count, and the black count the
      rest; the percentage is the
      white share `white / total * 100`, in [0, 100] and zero exactly when
      nothing is white; and the record echoes the threshold, the operation
      name and the size. */
  lemma BinaryStatsFacts(m: Grid, name: string, t: int)
    requires IsRect(m) && Size(m) > 0
    ensures var s := BinaryStats(m, name, t);
      var white, total := CountNonzero(m), Size(m);
      Keys(s) == [PixelPutih, PixelHitam, PersentasePutih, Threshold, Operasi, Ukuran] &&
      Get(s, PixelPutih) == Some(Int(white)) && Get(s, PixelHitam) == Some(Int(total - white)) &&
      0 <= white <= total &&
      Get(s, PersentasePutih) == Some(Real(Percent(white, total))) &&
      0.0 <= Percent(white, total) <= 100.0 && (Percent(white, total) == 0.0 <==> white == 0) &&
      Get(s, Threshold) == Some(Text(ThresholdText(t))) &&
      Get(s, Operasi) == Some(Text(name)) &&
      Get(s, Ukuran) == Some(Text(SizeText(m)))
  {
    var white, total := CountNonzero(m), Size(m);
    CountNonzeroAtMostSize(m);
    BinaryStatsEntries(m, name, t);
    PercentBounds(white, total);
  }

  lemma BinaryStatsEntries(m: Grid, name: string, t: int)
    requires IsRect(m) && Size(m) > 0
    ensures var s := BinaryStats(m, name, t);
      var white, total := CountNonzero(m), Size(m);
      Keys(s) == [PixelPutih, PixelHitam, PersentasePutih, Threshold, Operasi, Ukuran] &&
      Get(s, PixelPutih) == Some(Int(white)) && Get(s, PixelHitam) == Some(Int(total - white)) &&
      Get(s, PersentasePutih) == Some(Real(Percent(white, total))) &&
      Get(s, Threshold) == Some(Text(ThresholdText(t))) &&
      Get(s, Operasi) == Some(Text(name)) &&
      Get(s, Ukuran) == Some(Text(SizeText(m)))
  {
    var s := BinaryStats(m, name, t);
    assert UniqueKeys(s);
    GetAt(s, 0); GetAt(s, 1); GetAt(s, 2); GetAt(s, 3); GetAt(s, 4); GetAt(s, 5);
  }

  /** The threshold text of a non-negative threshold is its decimal digits,
      which read back as that number and carry no leading zero, then "/255". */
  lemma ThresholdTextDigits(t: nat)
    ensures var s := ThresholdText(t);
      s == NatToString(t) + "/255" && DecimalValue(NatToString(t)) == t &&
      (forall k :: 0 <= k < |NatToString(t)| ==> '0' <= s[k] <= '9') &&
      (s[0] == '0' ==> t == 0)
  {
    NatToStringDecimal(t);
  }

  // ---------------------------------------------------------------------
  // The four operations

  /** An operation's statistics: the binary statistics of its result, then
      the `Logika` entry set afterwards. */
  function OpStats(h: Grid, name: string, t: int, logic: string): Stats
    requires IsRect(h)
  {
    Put(BinaryStats(h, name, t), Logika, Text(logic))
  }

  /** The record holds the binary statistics under their own keys and the
      `Logika` text last; with no sample it holds `Logika` alone. */
  lemma OpStatsFacts(h: Grid, name: string, t: int, logic: string)
    requires IsRect(h)
    ensures Get(OpStats(h, name, t, logic), Logika) == Some(Text(logic))
    ensures Size(h) == 0 ==> OpStats(h, name, t, logic) == [(Logika, Text(logic))]
    ensures Size(h) > 0 ==>
      OpStats(h, name, t, logic) == BinaryStats(h, name, t) + [(Logika, Text(logic))] &&
      Get(OpStats(h, name, t, logic), Operasi) == Some(Text(name))
  {
    var s := BinaryStats(h, name, t);
    PutSpec(s, Logika, Text(logic));
    if Size(h) > 0 {
      BinaryStatsEntries(h, name, t);
      assert forall n :: 0 <= n < |s| ==> s[n].0 == Keys(s)[n];
      PutFresh(s, Logika, Text(logic));
    }
  }

  /** `operasi_and`. */
  function AndOp(img1: Grid, img2: Grid, t: int): (r: Option<Outcome>)
    ensures r.Some? <==> Comparable(img1, img2)
  {
    var (b1, _) := Binarize(img1, t);
    var (b2, _) := Binarize(img2, t);
    if b1.None? || b2.None? || !SameShape(b1.value, b2.value) then None
    else
      ThresholdMaskSpec(img1, t);
      ThresholdMaskSpec(img2, t);
      MaskIsImage(b1.value);
      MaskIsImage(b2.value);
      var h := AndMask(b1.value, b2.value);
      Some(Outcome(h, OpStats(h, "A AND B", t, "Irisan (\U{2229})")))
  }

  /** `operasi_or`. */
  function OrOp(img1: Grid, img2: Grid, t: int): (r: Option<Outcome>)
    ensures r.Some? <==> Comparable(img1, img2)
  {
    var (b1, _) := Binarize(img1, t);
    var (b2, _) := Binarize(img2, t);
    if b1.None? || b2.None? || !SameShape(b1.value, b2.value) then None
    else
      ThresholdMaskSpec(img1, t);
      ThresholdMaskSpec(img2, t);
      MaskIsImage(b1.value);
      MaskIsImage(b2.value);
      var h := OrMask(b1.value, b2.value);
      Some(Outcome(h, OpStats(h, "A OR B", t, "Gabungan (\U{222A})")))
  }

  /** `operasi_xor`. */
  function XorOp(img1: Grid, img2: Grid, t: int): (r: Option<Outcome>)
    ensures r.Some? <==> Comparable(img1, img2)
  {
    var (b1, _) := Binarize(img1, t);
    var (b2, _) := Binarize(img2, t);
    if b1.None? || b2.None? || !SameShape(b1.value, b2.value) then None
    else
      ThresholdMaskSpec(img1, t);
      ThresholdMaskSpec(img2, t);
      MaskIsImage(b1.value);
      MaskIsImage(b2.value);
      var h := XorMask(b1.value, b2.value);
      Some(Outcome(h, OpStats(h, "A XOR B", t, "Selisih Simetris (\U{2295})")))
  }

  /** `operasi_not`. */
  function NotOp(img1: Grid, t: int): (r: Option<Outcome>)
    ensures r.Some? <==> IsImage(img1) && Size(img1) > 0
  {
    var (b1, _) := Binarize(img1, t);
    if b1.None? then None
    else
      ThresholdMaskSpec(img1, t);
      MaskIsImage(b1.value);
      var h := NotMask(b1.value);
      Some(Outcome(h, OpStats(h, "NOT A", t, "Komplemen (\U{00AC})")))
  }

  // ---------------------------------------------------------------------
  // What each operation computes

  /** AND succeeds on two 8-bit images of one shape; its image is a mask of
      that shape, white exactly where both samples exceed the threshold, and
      its record names the operation and ends with its `Logika` text. */
  lemma AndOpSpec(img1: Grid, img2: Grid, t: int)
    requires Comparable(img1, img2)
    ensures var o := AndOp(img1, img2, t).value;
      IsMask(o.image) && SameShape(o.image, img1) &&
      (forall i, j :: 0 <= i < |img1| && 0 <= j < |img1[i]| ==>
        (o.image[i][j] == 255 <==> img1[i][j] > t && img2[i][j] > t)) &&
      o.stats == OpStats(o.image, "A AND B", t, "Irisan (\U{2229})")
  {
    var b1, b2 := ThresholdMask(img1, t), ThresholdMask(img2, t);
    ThresholdMaskSpec(img1, t);
    ThresholdMaskSpec(img2, t);
    MaskLogic(b1, b2);
  }

  /** OR: white exactly where at least one sample exceeds the threshold. */
  lemma OrOpSpec(img1: Grid, img2: Grid, t: int)
    requires Comparable(img1, img2)
    ensures var o := OrOp(img1, img2, t).value;
      IsMask(o.image) && SameShape(o.image, img1) &&
      (forall i, j :: 0 <= i < |img1| && 0 <= j < |img1[i]| ==>
        (o.image[i][j] == 255 <==> img1[i][j] > t || img2[i][j] > t)) &&
      o.stats == OpStats(o.image, "A OR B", t, "Gabungan (\U{222A})")
  {
    var b1, b2 := ThresholdMask(img1, t), ThresholdMask(img2, t);
    ThresholdMaskSpec(img1, t);
    ThresholdMaskSpec(img2, t);
    MaskLogic(b1, b2);
  }

  /** XOR: white exactly where one sample exceeds the threshold and the
      other does not. */
  lemma XorOpSpec(img1: Grid, img2: Grid, t: int)
    requires Comparable(img1, img2)
    ensures var o := XorOp(img1, img2, t).value;
      IsMask(o.image) && SameShape(o.image, img1) &&
      (forall i, j :: 0 <= i < |img1| && 0 <= j < |img1[i]| ==>
        (o.image[i][j] == 255 <==> (img1[i][j] > t) != (img2[i][j] > t))) &&
      o.stats == OpStats(o.image, "A XOR B", t, "Selisih Simetris (\U{2295})")
  {
    var b1, b2 := ThresholdMask(img1, t), ThresholdMask(img2, t);
    ThresholdMaskSpec(img1, t);
    ThresholdMaskSpec(img2, t);
    MaskLogic(b1, b2);
  }

  /** NOT: `255 - b` on the binarised image, so white exactly where the
      sample does not exceed the threshold. */
  lemma NotOpSpec(img1: Grid, t: int)
    requires Binarizable(img1)
    ensures var o := NotOp(img1, t).value;
      var b := ThresholdMask(img1, t);
      IsMask(o.image) && SameShape(o.image, img1) &&
      (forall i, j :: 0 <= i < |img1| && 0 <= j < |img1[i]| ==>
        o.image[i][j] == 255 - b[i][j] && (o.image[i][j] == 255 <==> img1[i][j] <= t)) &&
      o.stats == OpStats(o.image, "NOT A", t, "Komplemen (\U{00AC})")
  {
    var b := ThresholdMask(img1, t);
    ThresholdMaskSpec(img1, t);
    NotLogic(b);
  }

  /** The XOR image is the OR image minus the AND image, sample by sample. */
  lemma XorOpIsOrMinusAnd(img1: Grid, img2: Grid, t: int)
    requires Comparable(img1, img2)
    ensures var x, o, n := XorOp(img1, img2, t).value.image, OrOp(img1, img2, t).value.image,
        AndOp(img1, img2, t).value.image;
      forall i, j :: 0 <= i < |img1| && 0 <= j < |img1[i]| ==>
        (x[i][j] == 255 <==> o[i][j] == 255 && n[i][j] != 255)
  {
    AndOpSpec(img1, img2, t);
    OrOpSpec(img1, img2, t);
    XorOpSpec(img1, img2, t);
  }

  /** De Morgan at the level of the operations: the NOT of the AND image is
      white exactly where the NOT image of either operand is. */
  lemma AndOpDeMorgan(img1: Grid, img2: Grid, t: int)
    requires Comparable(img1, img2)
    ensures var n, a, b := AndOp(img1, img2, t).value.image, NotOp(img1, t).value.image,
        NotOp(img2, t).value.image;
      forall i, j :: 0 <= i < |img1| && 0 <= j < |img1[i]| ==>
        (n[i][j] != 255 <==> a[i][j] == 255 || b[i][j] == 255)
  {
    AndOpSpec(img1, img2, t);
    NotOpSpec(img1, t);
    NotOpSpec(img2, t);
  }

  /** The statistics of every operation: with at least one sample, the
      binary statistics of its image under the operation's label followed by
      `Logika`; with none, `Logika` alone. */
  lemma OpStatsShape(h: Grid, name: string, t: int, logic: string)
    requires IsRect(h) && Size(h) > 0
    ensures var s := OpStats(h, name, t, logic);
      Keys(s) == [PixelPutih, PixelHitam, PersentasePutih, Threshold, Operasi, Ukuran, Logika] &&
      Get(s, Operasi) == Some(Text(name)) && Get(s, Logika) == Some(Text(logic)) &&
      Get(s, Threshold) == Some(Text(ThresholdText(t)))
  {
    OpStatsFacts(h, name, t, logic);
    BinaryStatsEntries(h, name, t);
    var s := BinaryStats(h, name, t);
    UpdateGet(s, [(Logika, Text(logic))], Threshold);
  }

  // ---------------------------------------------------------------------
  // Demo

  /** `demo_operasi_boolean`: nothing at all when either image cannot be
      binarised (it is not an 8-bit image, or has no sample); otherwise both binarised images with their statistics, then
      each operation that succeeded, in the program's order. The titles of the
      two binarised images name threshold 127 whatever threshold is used, as
      the program does. NOT needs only the first image, so it is kept when the
      shapes differ and the two-operand operations fail. */
  method DemoBoolean(img1: Grid, img2: Grid, t: int) returns (results: Dict<Slot, Entry>)
    ensures !(Binarizable(img1) && Binarizable(img2)) ==> results == []
    ensures Binarizable(img1) && Binarizable(img2) ==>
      var b1, b2 := ThresholdMask(img1, t), ThresholdMask(img2, t);
      var binaries := [(Binary1, Entry(b1, BinaryStats(b1, "Binary A", t), "Binary A (Threshold 127)")),
                       (Binary2, Entry(b2, BinaryStats(b2, "Binary B", t), "Binary B (Threshold 127)"))];
      var not := (NotSlot, EntryOf(NotOp(img1, t).value, "NOT A (Komplemen)"));
      if SameShape(img1, img2) then
        results == binaries + [(AndSlot, EntryOf(AndOp(img1, img2, t).value, "A AND B (Irisan)")),
                               (OrSlot, EntryOf(OrOp(img1, img2, t).value, "A OR B (Gabungan)")),
                               (XorSlot, EntryOf(XorOp(img1, img2, t).value, "A XOR B (Selisih Simetris)")),
                               not]
      else
        results == binaries + [not]
  {
    // The operations are pure, so computing them up front changes nothing
    // when the program returns early.
    var hasilAnd := AndOp(img1, img2, t);
    var hasilOr := OrOp(img1, img2, t);
    var hasilXor := XorOp(img1, img2, t);
    var hasilNot := NotOp(img1, t);
    results := AssembleBoolean(img1, img2, t, hasilAnd, hasilOr, hasilXor, hasilNot);
  }

  /** The table of `demo_operasi_boolean` from the two images and the results
      of the four operations. Every slot is set once, so each
      `results[slot] = ...` appends (see `Records.PutFresh`). */
  method AssembleBoolean(img1: Grid, img2: Grid, t: int,
                         hasilAnd: Option<Outcome>, hasilOr: Option<Outcome>,
                         hasilXor: Option<Outcome>, hasilNot: Option<Outcome>)
    returns (results: Dict<Slot, Entry>)
    requires hasilAnd.Some? <==> Comparable(img1, img2)
    requires hasilOr.Some? <==> Comparable(img1, img2)
    requires hasilXor.Some? <==> Comparable(img1, img2)
    requires hasilNot.Some? <==> Binarizable(img1)
    ensures !(Binarizable(img1) && Binarizable(img2)) ==> results == []
    ensures Binarizable(img1) && Binarizable(img2) ==>
      var b1, b2 := ThresholdMask(img1, t), ThresholdMask(img2, t);
      var binaries := [(Binary1, Entry(b1, BinaryStats(b1, "Binary A", t), "Binary A (Threshold 127)")),
                       (Binary2, Entry(b2, BinaryStats(b2, "Binary B", t), "Binary B (Threshold 127)"))];
      var not := (NotSlot, EntryOf(hasilNot.value, "NOT A (Komplemen)"));
      if SameShape(img1, img2) then
        results == binaries + [(AndSlot, EntryOf(hasilAnd.value, "A AND B (Irisan)")),
                               (OrSlot, EntryOf(hasilOr.value, "A OR B (Gabungan)")),
                               (XorSlot, EntryOf(hasilXor.value, "A XOR B (Selisih Simetris)")),
                               not]
      else
        results == binaries + [not]
  {
    results := [];
    var (binary1, _) := Binarize(img1, t);
    var (binary2, _) := Binarize(img2, t);
    if binary1.None? || binary2.None? {
      return;
    }
    ThresholdMaskSpec(img1, t);
    ThresholdMaskSpec(img2, t);
    var statsBinary1 := BinaryStats(binary1.value, "Binary A", t);
    var statsBinary2 := BinaryStats(binary2.value, "Binary B", t);
    results := results + [(Binary1, Entry(binary1.value, statsBinary1, "Binary A (Threshold 127)"))];
    results := results + [(Binary2, Entry(binary2.value, statsBinary2, "Binary B (Threshold 127)"))];
    if hasilAnd.Some? {
      results := results + [(AndSlot, EntryOf(hasilAnd.value, "A AND B (Irisan)"))];
    }
    if hasilOr.Some? {
      results := results + [(OrSlot, EntryOf(hasilOr.value, "A OR B (Gabungan)"))];
    }
    if hasilXor.Some? {
      results := results + [(XorSlot, EntryOf(hasilXor.value, "A XOR B (Selisih Simetris)"))];
    }
    if hasilNot.Some? {
      results := results + [(NotSlot, EntryOf(hasilNot.value, "NOT A (Komplemen)"))];
    }
  }
}
