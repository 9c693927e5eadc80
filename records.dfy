/** Statistics records and result tables as the program builds them: Python
    dicts keep insertion order, `d[k] = v` replaces the value of an existing
    key in place and appends a new key at the end, and `d.update(e)` does
    `d[k] = v` for each entry of `e` in order. A dict is modelled as the
    sequence of its entries. The keys of the records this model builds are
    the constructors of `Key` (statistics) and `Slot` (result tables), and
    `KeyName`/`SlotName` give the strings themselves; the float-valued keys
    (`Mean`, `Std Dev`, `Mean Intensity`) and the blending keys are not
    among them. */
module Records {
  import opened Grids

  datatype Option<+T> = None | Some(value: T)

  /** The values a statistics record holds: Python int, float and str. */
  datatype Value = Int(i: int) | Real(r: real) | Text(s: string)

  /** The keys of the statistics records. */
  datatype Key =
    | Max | Min | TotalPixels | PixelsNonzero | PersenDiff | Konstanta | Range
    | PixelPutih | PixelHitam | PersentasePutih | Threshold | Operasi | Ukuran | Logika
    | MotionPixels | MotionPercent | Status | Method | Cleaned
    | MotionAreas | LargestArea | TotalMotionArea | AvgArea
    | Frame | Type

  function KeyName(k: Key): string
  {
    match k
    case Max => "Max"
    case Min => "Min"
    case TotalPixels => "Total Pixels"
    case PixelsNonzero => "Pixels >0"
    case PersenDiff => "Persen Diff"
    case Konstanta => "Konstanta"
    case Range => "Range"
    case PixelPutih => "Pixel Putih"
    case PixelHitam => "Pixel Hitam"
    case PersentasePutih => "Persentase Putih"
    case Threshold => "Threshold"
    case Operasi => "Operasi"
    case Ukuran => "Ukuran"
    case Logika => "Logika"
    case MotionPixels => "Motion Pixels"
    case MotionPercent => "Motion %"
    case Status => "Status"
    case Method => "Method"
    case Cleaned => "Cleaned"
    case MotionAreas => "Motion Areas"
    case LargestArea => "Largest Area"
    case TotalMotionArea => "Total Motion Area"
    case AvgArea => "Avg Area"
    case Frame => "Frame"
    case Type => "Type"
  }

  /** The keys of the demos' result tables. */
  datatype Slot =
    | Absolut | Konstanta1 | Konstanta2
    | Binary1 | Binary2 | AndSlot | OrSlot | XorSlot | NotSlot
    | Frame1 | Frame2 | MotionSimple | MotionCleaned | MotionLowThreshold

  function SlotName(s: Slot): string
  {
    match s
    case Absolut => "absolut"
    case Konstanta1 => "konstanta"
    case Konstanta2 => "konstanta2"
    case Binary1 => "binary1"
    case Binary2 => "binary2"
    case AndSlot => "and"
    case OrSlot => "or"
    case XorSlot => "xor"
    case NotSlot => "not"
    case Frame1 => "frame1"
    case Frame2 => "frame2"
    case MotionSimple => "motion_simple"
    case MotionCleaned => "motion_cleaned"
    case MotionLowThreshold => "motion_low_threshold"
  }

  /** An insertion-ordered dict. */
  type Dict<K, V> = seq<(K, V)>

  /** A statistics record. */
  type Stats = Dict<Key, Value>

  /** What an image operation returns when it succeeds: `(hasil, stats)`. */
  datatype Outcome = Outcome(image: Grid, stats: Stats)

  /** One entry of a demo's `results` table: `{'image', 'stats', 'title'}`. */
  datatype Entry = Entry(image: Grid, stats: Stats, title: string)

  function Keys<K(==), V>(d: Dict<K, V>): (ks: seq<K>)
    ensures |ks| == |d|
    ensures forall n :: 0 <= n < |d| ==> ks[n] == d[n].0
  {
    seq(|d|, n requires 0 <= n < |d| => d[n].0)
  }

  /** `d.get(k)`. */
  function Get<K(==), V>(d: Dict<K, V>, k: K): (r: Option<V>)
  {
    if d == [] then None else if d[0].0 == k then Some(d[0].1) else Get(d[1..], k)
  }

  predicate UniqueKeys<K(==), V>(d: Dict<K, V>)
  {
    forall m, n :: 0 <= m < n < |d| ==> d[m].0 != d[n].0
  }

  /** In a dict with distinct keys, looking up the key of the n-th entry
      gives that entry's value. */
  lemma {:induction false} GetAt<K, V>(d: Dict<K, V>, n: nat)
    requires UniqueKeys(d) && n < |d|
    ensures Get(d, d[n].0) == Some(d[n].1)
  {
    if n > 0 {
      var t := d[1..];
      assert forall m :: 0 <= m < |t| ==> t[m] == d[m + 1];
      assert UniqueKeys(t);
      GetAt(t, n - 1);
    }
  }

  /** `d[k] = v`. */
  function Put<K(==), V>(d: Dict<K, V>, k: K, v: V): Dict<K, V>
  {
    if d == [] then [(k, v)]
    else if d[0].0 == k then [(k, v)] + d[1..]
    else [d[0]] + Put(d[1..], k, v)
  }

  /** `d.update(e)`. */
  function Update<K(==), V>(d: Dict<K, V>, e: Dict<K, V>): Dict<K, V>
    decreases |e|
  {
    if e == [] then d else Update(Put(d, e[0].0, e[0].1), e[1..])
  }

  /** After `d[k] = v`, `k` maps to `v`, every other key keeps its value, an
      existing key keeps its place and a new key goes last. */
  lemma {:induction false} PutSpec<K, V>(d: Dict<K, V>, k: K, v: V)
    ensures Get(Put(d, k, v), k) == Some(v)
    ensures forall k' :: k' != k ==> Get(Put(d, k, v), k') == Get(d, k')
    ensures Keys(Put(d, k, v)) == if k in Keys(d) then Keys(d) else Keys(d) + [k]
  {
    var r := Put(d, k, v);
    if d == [] {
    } else if d[0].0 == k {
      assert r[1..] == d[1..];
      assert Keys(r) == [k] + Keys(d[1..]) == Keys(d);
    } else {
      PutSpec(d[1..], k, v);
      assert r[0] == d[0] && r[1..] == Put(d[1..], k, v);
      assert Keys(r) == [d[0].0] + Keys(r[1..]);
      assert Keys(d) == [d[0].0] + Keys(d[1..]);
    }
  }

  /** Setting a key that is not there yet appends its entry. */
  lemma {:induction false} PutFresh<K, V>(d: Dict<K, V>, k: K, v: V)
    requires forall n :: 0 <= n < |d| ==> d[n].0 != k
    ensures Put(d, k, v) == d + [(k, v)]
  {
    if d != [] {
      var t := d[1..];
      assert forall n :: 0 <= n < |t| ==> t[n] == d[n + 1];
      PutFresh(t, k, v);
      assert d == [d[0]] + t;
    }
  }

  /** Merging a record whose keys are all new appends its entries in order. */
  lemma {:induction false} UpdateFresh<K, V>(d: Dict<K, V>, e: Dict<K, V>)
    requires UniqueKeys(e)
    requires forall m, n :: 0 <= m < |d| && 0 <= n < |e| ==> d[m].0 != e[n].0
    ensures Update(d, e) == d + e
    decreases |e|
  {
    if e != [] {
      PutFresh(d, e[0].0, e[0].1);
      var d' := d + [e[0]];
      assert Update(d, e) == Update(d', e[1..]);
      var t := e[1..];
      assert forall n :: 0 <= n < |t| ==> t[n] == e[n + 1];
      assert UniqueKeys(t);
      forall m, n | 0 <= m < |d'| && 0 <= n < |t| ensures d'[m].0 != t[n].0 {
        assert t[n].0 == e[n + 1].0 != e[0].0;
      }
      UpdateFresh(d', t);
      assert d' + t == d + e;
    }
  }

  /** After `d.update(e)` every key of `e` has its value from `e`, and every
      other key its value from `d`. */
  lemma {:induction false} UpdateGet<K, V>(d: Dict<K, V>, e: Dict<K, V>, k: K)
    requires UniqueKeys(e)
    ensures Get(Update(d, e), k) == if k in Keys(e) then Get(e, k) else Get(d, k)
    decreases |e|
  {
    if e != [] {
      var d' := Put(d, e[0].0, e[0].1);
      PutSpec(d, e[0].0, e[0].1);
      assert Keys(e) == [e[0].0] + Keys(e[1..]);
      assert UniqueKeys(e[1..]) by {
        forall m, n | 0 <= m < n < |e[1..]| ensures e[1..][m].0 != e[1..][n].0 {
          assert e[1..][m] == e[m + 1] && e[1..][n] == e[n + 1];
        }
      }
      UpdateGet(d', e[1..], k);
      if k == e[0].0 {
        assert k !in Keys(e[1..]) by {
          forall n | 0 <= n < |e[1..]| ensures Keys(e[1..])[n] != k {
            assert Keys(e[1..])[n] == e[n + 1].0;
          }
        }
      }
    }
  }

  /** The `{'image': ..., 'stats': ..., 'title': ...}` entry a demo stores
      for an operation that succeeded. */
  function EntryOf(o: Outcome, title: string): Entry
  {
    Entry(o.image, o.stats, title)
  }

  /** Python's `(part / total) * 100` for a count out of a positive total. */
  function Percent(part: nat, total: nat): real
    requires total > 0
  {
    part as real / total as real * 100.0
  }

  /** A count out of a larger total is between 0 and 100 percent, and no
      count at all is exactly 0 percent. */
  lemma PercentBounds(part: nat, total: nat)
    requires 0 < total && part <= total
    ensures 0.0 <= Percent(part, total) <= 100.0
    ensures Percent(part, total) == 0.0 <==> part == 0
  {
    assert part as real / total as real <= 1.0;
  }

  lemma DivAboveOne(x: real, t: real)
    requires t > 0.0
    ensures x / t > 1.0 <==> x > t
  {
    var q := x / t;
    assert q * t == x;
    if q > 1.0 { assert q * t > 1.0 * t; }
    if q <= 1.0 { assert q * t <= 1.0 * t; }
  }

  /** `Percent(part, total) > 1.0` is the integer comparison `100 * part > total`. */
  lemma PercentAboveOne(part: nat, total: nat)
    requires total > 0
    ensures Percent(part, total) > 1.0 <==> 100 * part > total
  {
    var p, t := part as real, total as real;
    assert Percent(part, total) == (100.0 * p) / t;
    DivAboveOne(100.0 * p, t);
  }

  // ---------------------------------------------------------------------
  // Python's str() of an int: decimal digits, with '-' before a negative value

  function DigitChar(d: nat): (c: char)
    requires d < 10
    ensures '0' <= c <= '9'
  {
    "0123456789"[d]
  }

  function DigitValue(c: char): nat
  {
    if '0' <= c <= '9' then (c - '0') as nat else 0
  }

  /** str() of a natural number: its decimal digits, with no leading zero
      except in "0" itself. */
  function NatToString(n: nat): (s: string)
    ensures |s| > 0
    ensures forall k :: 0 <= k < |s| ==> '0' <= s[k] <= '9'
    ensures s[0] == '0' <==> n == 0
    ensures n == 0 ==> s == "0"
  {
    if n < 10 then [DigitChar(n)] else NatToString(n / 10) + [DigitChar(n % 10)]
  }

  function IntToString(i: int): (s: string)
  {
    if i < 0 then "-" + NatToString(-i) else NatToString(i)
  }

  /** The number a string of decimal digits denotes. */
  function DecimalValue(s: string): nat
  {
    if s == [] then 0 else 10 * DecimalValue(s[..|s| - 1]) + DigitValue(s[|s| - 1])
  }

  /** str() of a natural number writes its decimal digits: reading them back
      gives the number, and only zero is written with a leading '0'. */
  lemma {:induction false} NatToStringDecimal(n: nat)
    ensures DecimalValue(NatToString(n)) == n
    ensures NatToString(n)[0] == '0' ==> NatToString(n) == "0"
  {
    if n >= 10 {
      NatToStringDecimal(n / 10);
      var s := NatToString(n);
      assert s[..|s| - 1] == NatToString(n / 10);
    }
  }

  /** str() of an int is never empty and holds no line break. */
  lemma IntToStringNoNewline(i: int)
    ensures |IntToString(i)| > 0 && '\n' !in IntToString(i)
  {
  }
}
