/**
 * The audit timeline's histogram (buildBuckets in components/AuditTimelineExplorer.tsx).
 * Times are integer milliseconds; every division the code makes is between multiples of
 * the unit, so its floating-point results are exact.
 */
module Histogram {
  import opened Prelude
  import opened Arithmetic

  const HOUR_MS := 3600000
  const DAY_MS := 86400000
  const MAX_BARS := 64

  datatype Bucket = Bucket(start: int, end: int, count: nat)

  predicate Unit(u: int) {
    u == HOUR_MS || u == DAY_MS
  }

  /** `hourStart` / `dayStart`: the UTC hour or day a time falls in. */
  function UnitStart(t: int, unit: int): (r: int)
    requires unit > 0
    ensures r <= t < r + unit
  {
    t / unit * unit
  }

  function CountIn(times: seq<int>, lo: int, hi: int): nat {
    if times == [] then 0
    else CountIn(times[..|times| - 1], lo, hi) + if lo <= times[|times| - 1] < hi then 1 else 0
  }

  function SumCounts(buckets: seq<Bucket>): nat {
    if buckets == [] then 0 else SumCounts(buckets[..|buckets| - 1]) + buckets[|buckets| - 1].count
  }

  /** `Math.max(unit, ceil(span / MAX_BARS / unit) * unit)`, with span at least a day. */
  function BucketWidth(range: int, unit: int): (w: int)
    requires Unit(unit)
  {
    Max(unit, CeilDiv(Max(range, DAY_MS), MAX_BARS * unit) * unit)
  }

  lemma {:induction false} SplitCount(times: seq<int>, a: int, b: int, c: int)
    requires a <= b <= c
    ensures CountIn(times, a, c) == CountIn(times, a, b) + CountIn(times, b, c)
  {
    if times != [] {
      SplitCount(times[..|times| - 1], a, b, c);
    }
  }

  lemma {:induction false} AllCounted(times: seq<int>, lo: int, hi: int)
    requires forall i :: 0 <= i < |times| ==> lo <= times[i] < hi
    ensures CountIn(times, lo, hi) == |times|
  {
    if times != [] {
      AllCounted(times[..|times| - 1], lo, hi);
    }
  }

  lemma {:induction false} NoneCounted(times: seq<int>, at: int)
    ensures CountIn(times, at, at) == 0
  {
    if times != [] {
      NoneCounted(times[..|times| - 1], at);
    }
  }

  function Least(times: seq<int>): int
    requires times != []
  {
    if |times| == 1 then times[0] else Min(Least(times[..|times| - 1]), times[|times| - 1])
  }

  function Greatest(times: seq<int>): int
    requires times != []
  {
    if |times| == 1 then times[0] else Max(Greatest(times[..|times| - 1]), times[|times| - 1])
  }

  lemma {:induction false} ExtremesMean(times: seq<int>)
    requires times != []
    ensures Least(times) in times && Greatest(times) in times
    ensures forall t :: t in times ==> Least(times) <= t <= Greatest(times)
  {
    var n := |times| - 1;
    if n > 0 {
      ExtremesMean(times[..n]);
      assert times == times[..n] + [times[n]];
    }
  }

  method TimelineExtent(times: seq<int>) returns (extent: Option<(int, int)>)
    ensures extent == if times == [] then None else Some((Least(times), Greatest(times)))
  {
    if times == [] {
      return None;
    }
    var lo, hi := times[0], times[0];
    for i := 1 to |times|
      invariant lo == Least(times[..i]) && hi == Greatest(times[..i])
    {
      assert times[..i + 1][..i] == times[..i];
      lo, hi := Min(lo, times[i]), Max(hi, times[i]);
    }
    assert times[..|times|] == times;
    return Some((lo, hi));
  }

  // ---- slots -----------------------------------------------------------------

  /** Slot k covers [SlotStart(k), SlotStart(k) + w). */
  function SlotStart(lo: int, w: int, k: int): int {
    lo + k * w
  }

  predicate Aligned(x: int, unit: int) {
    Unit(unit) && x % unit == 0
  }

  lemma AlignedUnitStart(t: int, unit: int)
    requires Unit(unit)
    ensures Aligned(UnitStart(t, unit), unit)
  {
  }

  lemma HoursAdd(x: int, y: int)
    requires x % HOUR_MS == 0 && y % HOUR_MS == 0
    ensures (x + y) % HOUR_MS == 0
  {
  }

  lemma DaysAdd(x: int, y: int)
    requires x % DAY_MS == 0 && y % DAY_MS == 0
    ensures (x + y) % DAY_MS == 0
  {
  }

  lemma HoursSubtract(x: int, y: int)
    requires x % HOUR_MS == 0 && y % HOUR_MS == 0
    ensures (x - y) % HOUR_MS == 0
  {
  }

  lemma DaysSubtract(x: int, y: int)
    requires x % DAY_MS == 0 && y % DAY_MS == 0
    ensures (x - y) % DAY_MS == 0
  {
  }

  lemma AlignedSum(x: int, y: int, unit: int)
    requires Aligned(x, unit) && Aligned(y, unit)
    ensures Aligned(x + y, unit)
  {
    if unit == HOUR_MS {
      HoursAdd(x, y);
    } else {
      DaysAdd(x, y);
    }
  }

  lemma AlignedDifference(x: int, y: int, unit: int)
    requires Aligned(x, unit) && Aligned(y, unit)
    ensures Aligned(x - y, unit)
  {
    if unit == HOUR_MS {
      HoursSubtract(x, y);
    } else {
      DaysSubtract(x, y);
    }
  }

  /** Rounding a time down to its unit does not move it across an aligned boundary. */
  lemma RoundingStaysPut(t: int, b: int, unit: int)
    requires Aligned(b, unit)
    ensures b <= UnitStart(t, unit) <==> b <= t
  {
    if unit == HOUR_MS { } else { }
  }

  lemma {:induction false} AlignedSlot(lo: int, w: int, k: nat, unit: int)
    requires Aligned(lo, unit) && Aligned(w, unit)
    ensures Aligned(SlotStart(lo, w, k), unit)
  {
    if k > 0 {
      AlignedSlot(lo, w, k - 1, unit);
      AlignedSum(SlotStart(lo, w, k - 1), w, unit);
      assert SlotStart(lo, w, k) == SlotStart(lo, w, k - 1) + w;
    }
  }

  lemma SlotMembership(t: int, lo: int, w: int, unit: int, k: nat)
    requires Aligned(lo, unit) && Aligned(w, unit) && w > 0
    ensures SlotStart(lo, w, k) <= t < SlotStart(lo, w, k) + w <==> (UnitStart(t, unit) - lo) / w == k
  {
    AlignedSlot(lo, w, k, unit);
    AlignedSum(SlotStart(lo, w, k), w, unit);
    RoundingStaysPut(t, SlotStart(lo, w, k), unit);
    RoundingStaysPut(t, SlotStart(lo, w, k) + w, unit);
    QuotientIs(UnitStart(t, unit) - lo, w, k);
  }

  lemma WidthExact(range: int, span: int, q: int, d: int)
    requires d > 0 && 0 <= range <= span && (q - 1) * d < span <= q * d
    requires q >= 1 && (range > 0 && range % d == 0 ==> span == range)
    ensures range == q * d <==> range > 0 && range % d == 0
  {
    var m := range / d;
    assert range == m * d + range % d;
    if range > 0 && range % d == 0 {
      if m < q - 1 {
        MulStep(m, q - 1, d);
      } else if q < m {
        MulStep(q, m, d);
      }
    } else if range == q * d {
      QuotientIs(range, d, q);
    }
  }

  /**
   * `Math.max(unit, ceil(span / MAX_BARS / unit) * unit)` fits the range in MAX_BARS widths, with
   * equality in one case only.
   */
  lemma WidthFacts(range: int, unit: int)
    requires Aligned(range, unit) && range >= 0
    ensures var w := BucketWidth(range, unit);
            && unit <= w && Aligned(w, unit)
            && range <= MAX_BARS * w
            && (range == MAX_BARS * w <==> range > 0 && range % (MAX_BARS * unit) == 0)
  {
    var w := BucketWidth(range, unit);
    var d, span := MAX_BARS * unit, Max(range, DAY_MS);
    var q := CeilDiv(span, d);
    assert q >= 1 && w == q * unit;
    assert q * d == MAX_BARS * w;
    WidthExact(range, span, q, d);
  }

  // ---- the histogram ----------------------------------------------------------

  /** A bar `w` wide, on the unit grid, counting the events inside it. */
  ghost predicate GoodBar(points: seq<int>, unit: int, w: int, bar: Bucket) {
    && bar.end == bar.start + w && Aligned(bar.start, unit)
    && bar.count == CountIn(points, bar.start, bar.end)
  }

  /** Everything a bar chart of these events must be. */
  ghost predicate IsHistogram(points: seq<int>, unit: int, buckets: seq<Bucket>)
    requires points != [] && Unit(unit)
  {
    var lo, hi := UnitStart(Least(points), unit), UnitStart(Greatest(points), unit);
    var w := BucketWidth(hi - lo, unit);
    && buckets != [] && buckets[0].start == lo
    && buckets[|buckets| - 1].start <= hi && Greatest(points) < buckets[|buckets| - 1].end
    && Aligned(w, unit) && unit <= w
    && (forall i :: 0 <= i < |buckets| ==> GoodBar(points, unit, w, buckets[i]))
    && (forall i :: 0 < i < |buckets| ==> buckets[i].start == buckets[i - 1].end)
    && SumCounts(buckets) == |points|
    && |buckets| <= MAX_BARS + 1
    && (|buckets| == MAX_BARS + 1 <==> hi - lo > 0 && (hi - lo) % (MAX_BARS * unit) == 0)
  }

  lemma SameSlot(lo: int, w: int, k: int, j: int)
    requires w > 0
    ensures SlotStart(lo, w, k) == SlotStart(lo, w, j) <==> k == j
  {
    if k < j {
      MulStep(k, j, w);
    } else if j < k {
      MulStep(j, k, w);
    }
  }

  /** The counting loop: one tally per slot. */
  method CountSlots(points: seq<int>, unit: int, lo: int, w: int) returns (counts: map<int, nat>)
    requires Aligned(lo, unit) && Aligned(w, unit) && w > 0
    requires forall t :: t in points ==> lo <= t
    ensures forall k: nat ::
              Tally(counts, SlotStart(lo, w, k)) == CountIn(points, SlotStart(lo, w, k), SlotStart(lo, w, k) + w)
  {
    counts := map[];
    for i := 0 to |points|
      invariant forall k: nat ::
          Tally(counts, SlotStart(lo, w, k)) == CountIn(points[..i], SlotStart(lo, w, k), SlotStart(lo, w, k) + w)
    {
      var t := points[i];
      var time := UnitStart(t, unit);
      var start := lo + (time - lo) / w * w;
      ghost var before := counts;
      counts := counts[start := (if start in counts then counts[start] else 0) + 1];
      assert points[..i + 1][..i] == points[..i];
      forall k: nat
        ensures Tally(counts, SlotStart(lo, w, k))
                == CountIn(points[..i + 1], SlotStart(lo, w, k), SlotStart(lo, w, k) + w)
      {
        SlotMembership(t, lo, w, unit, k);
        SameSlot(lo, w, k, (time - lo) / w);
        assert start == SlotStart(lo, w, (time - lo) / w);
      }
    }
    assert points[..|points|] == points;
  }

  function BarAt(points: seq<int>, lo: int, w: int, k: int): Bucket {
    Bucket(SlotStart(lo, w, k), SlotStart(lo, w, k) + w, CountIn(points, SlotStart(lo, w, k), SlotStart(lo, w, k) + w))
  }

  ghost predicate Bars(points: seq<int>, lo: int, w: int, buckets: seq<Bucket>) {
    && (forall i :: 0 <= i < |buckets| ==> buckets[i] == BarAt(points, lo, w, i))
    && SumCounts(buckets) == CountIn(points, lo, SlotStart(lo, w, |buckets|))
  }

  lemma NoBars(points: seq<int>, lo: int, w: int)
    ensures Bars(points, lo, w, [])
  {
    NoneCounted(points, lo);
    assert SlotStart(lo, w, 0) == lo;
  }

  lemma PushBar(points: seq<int>, lo: int, w: int, buckets: seq<Bucket>, bar: Bucket)
    requires w > 0 && Bars(points, lo, w, buckets)
    requires bar == BarAt(points, lo, w, |buckets|)
    ensures Bars(points, lo, w, buckets + [bar])
  {
    var n := |buckets|;
    assert (buckets + [bar])[..n] == buckets;
    assert SlotStart(lo, w, n + 1) == SlotStart(lo, w, n) + w;
    assert n * w >= 0;
    SplitCount(points, lo, SlotStart(lo, w, n), SlotStart(lo, w, n) + w);
  }

  /** What the extent of the events gives the bars to work with. */
  ghost predicate Frames(points: seq<int>, unit: int, lo: int, hi: int, w: int)
  {
    && Aligned(lo, unit) && Aligned(hi, unit) && Aligned(w, unit) && unit <= w && lo <= hi
    && hi - lo <= MAX_BARS * w
    && (hi - lo == MAX_BARS * w <==> hi - lo > 0 && (hi - lo) % (MAX_BARS * unit) == 0)
    && forall t :: t in points ==> lo <= t < hi + unit
  }

  lemma ExtentFrames(points: seq<int>, unit: int)
    requires points != [] && Unit(unit)
    ensures var lo, hi := UnitStart(Least(points), unit), UnitStart(Greatest(points), unit);
            Frames(points, unit, lo, hi, BucketWidth(hi - lo, unit)) && Greatest(points) < hi + unit
  {
    var lo, hi := UnitStart(Least(points), unit), UnitStart(Greatest(points), unit);
    ExtremesMean(points);
    AlignedUnitStart(Least(points), unit);
    AlignedUnitStart(Greatest(points), unit);
    AlignedDifference(hi, lo, unit);
    RoundingStaysPut(Greatest(points), lo, unit);
    WidthFacts(hi - lo, unit);
  }

  lemma AlignedBeyond(start: int, hi: int, unit: int)
    requires Aligned(start, unit) && Aligned(hi, unit) && hi < start
    ensures hi + unit <= start
  {
    if unit == HOUR_MS { } else { }
  }

  lemma BarsCountAll(points: seq<int>, unit: int, lo: int, hi: int, w: int, n: nat)
    requires Frames(points, unit, lo, hi, w) && hi < SlotStart(lo, w, n)
    ensures hi + unit <= SlotStart(lo, w, n)
    ensures CountIn(points, lo, SlotStart(lo, w, n)) == |points|
  {
    AlignedSlot(lo, w, n, unit);
    AlignedBeyond(SlotStart(lo, w, n), hi, unit);
    forall i | 0 <= i < |points| ensures lo <= points[i] < SlotStart(lo, w, n) {
      assert points[i] in points;
    }
    AllCounted(points, lo, SlotStart(lo, w, n));
  }

  lemma SlotNext(lo: int, w: int, k: int)
    ensures SlotStart(lo, w, k) == SlotStart(lo, w, k - 1) + w
  {
  }

  lemma BarsAbut(points: seq<int>, unit: int, lo: int, w: int, buckets: seq<Bucket>, i: nat)
    requires Bars(points, lo, w, buckets) && i < |buckets| && Aligned(lo, unit) && Aligned(w, unit)
    ensures GoodBar(points, unit, w, buckets[i])
    ensures i > 0 ==> buckets[i].start == buckets[i - 1].end
  {
    AlignedSlot(lo, w, i, unit);
    SlotNext(lo, w, i);
  }

  /** Bars from the first event's slot to the last event's. */
  ghost predicate Laid(points: seq<int>, lo: int, hi: int, w: int, buckets: seq<Bucket>) {
    && Bars(points, lo, w, buckets) && buckets != []
    && SlotStart(lo, w, |buckets| - 1) <= hi < SlotStart(lo, w, |buckets|)
  }

  lemma BarCount(lo: int, hi: int, w: int, n: nat)
    requires w > 0 && n > 0 && hi - lo <= MAX_BARS * w
    requires SlotStart(lo, w, n) - w <= hi < SlotStart(lo, w, n)
    ensures n <= MAX_BARS + 1
    ensures n == MAX_BARS + 1 <==> hi - lo == MAX_BARS * w
  {
    assert (n - 1) * w + w == n * w;
    if MAX_BARS < n - 1 {
      MulStep(MAX_BARS, n - 1, w);
    } else if n - 1 < MAX_BARS {
      MulStep(n - 1, MAX_BARS, w);
    }
  }

  lemma BarsAreHistogram(points: seq<int>, unit: int, buckets: seq<Bucket>)
    requires points != [] && Unit(unit)
    requires var lo, hi := UnitStart(Least(points), unit), UnitStart(Greatest(points), unit);
             Laid(points, lo, hi, BucketWidth(hi - lo, unit), buckets)
    ensures IsHistogram(points, unit, buckets)
  {
    var lo, hi := UnitStart(Least(points), unit), UnitStart(Greatest(points), unit);
    var w, n := BucketWidth(hi - lo, unit), |buckets|;
    ExtentFrames(points, unit);
    BarsCountAll(points, unit, lo, hi, w, n);
    SlotNext(lo, w, n);
    BarCount(lo, hi, w, n);
    forall i | 0 <= i < n
      ensures GoodBar(points, unit, w, buckets[i]) && (i > 0 ==> buckets[i].start == buckets[i - 1].end)
    {
      BarsAbut(points, unit, lo, w, buckets, i);
    }
    assert SlotStart(lo, w, 0) == lo;
  }

  /** The stepping loop: a bar every `w` until the last event's unit is passed. */
  method LayBars(points: seq<int>, lo: int, hi: int, w: int, counts: map<int, nat>) returns (buckets: seq<Bucket>)
    requires w > 0 && lo <= hi
    requires forall k: nat ::
               Tally(counts, SlotStart(lo, w, k)) == CountIn(points, SlotStart(lo, w, k), SlotStart(lo, w, k) + w)
    ensures Laid(points, lo, hi, w, buckets)
  {
    buckets := [];
    var start := lo;
    NoBars(points, lo, w);
    while start <= hi
      invariant start == SlotStart(lo, w, |buckets|) && Bars(points, lo, w, buckets)
      invariant if buckets == [] then start == lo else SlotStart(lo, w, |buckets| - 1) <= hi
      decreases hi - start
    {
      var bar := Bucket(start, start + w, if start in counts then counts[start] else 0);
      assert bar.count == Tally(counts, SlotStart(lo, w, |buckets|));
      PushBar(points, lo, w, buckets, bar);
      SlotNext(lo, w, |buckets| + 1);
      buckets := buckets + [bar];
      start := start + w;
    }
  }

  method BuildBuckets(points: seq<int>, unit: int) returns (buckets: seq<Bucket>)
    requires Unit(unit)
    ensures points == [] ==> buckets == []
    ensures points != [] ==> IsHistogram(points, unit, buckets)
  {
    var extent := TimelineExtent(points);
    if extent.None? {
      return [];
    }
    var lo, hi := UnitStart(extent.value.0, unit), UnitStart(extent.value.1, unit);
    var w := BucketWidth(hi - lo, unit);
    ExtentFrames(points, unit);
    var counts := CountSlots(points, unit, lo, w);
    buckets := LayBars(points, lo, hi, w, counts);
    BarsAreHistogram(points, unit, buckets);
  }

  ghost predicate InBucket(buckets: seq<Bucket>, i: int, t: int) {
    0 <= i < |buckets| && buckets[i].start <= t < buckets[i].end
  }

  lemma {:induction false} BucketsOrdered(points: seq<int>, unit: int, buckets: seq<Bucket>, i: int, j: int)
    requires points != [] && Unit(unit) && IsHistogram(points, unit, buckets)
    requires 0 <= i < j < |buckets|
    ensures buckets[i].end <= buckets[j].start
    decreases j
  {
    if i < j - 1 {
      BucketsOrdered(points, unit, buckets, i, j - 1);
    }
  }

  /** Each event falls in exactly one bucket. */
  lemma ExactlyOneBucket(points: seq<int>, unit: int, buckets: seq<Bucket>, t: int)
    requires points != [] && Unit(unit) && IsHistogram(points, unit, buckets) && t in points
    ensures exists i :: InBucket(buckets, i, t) && forall j :: InBucket(buckets, j, t) ==> j == i
  {
    ExtremesMean(points);
    var i := 0;
    while t >= buckets[i].end
      invariant 0 <= i < |buckets| && buckets[i].start <= t
      invariant t < buckets[|buckets| - 1].end
      decreases |buckets| - i
    {
      i := i + 1;
    }
    assert InBucket(buckets, i, t);
    forall j | InBucket(buckets, j, t) ensures j == i {
      if j < i { BucketsOrdered(points, unit, buckets, j, i); }
      if i < j { BucketsOrdered(points, unit, buckets, i, j); }
    }
  }

  /**
   * Bars are no wider than they must be: the least whole number of units of which 64 cover the
   * range, or a day if that is longer.
   */
  lemma WidthIsLeast(range: int, unit: int, m: nat)
    requires Unit(unit) && m > 0
    ensures MAX_BARS * (m * unit) >= range && MAX_BARS * (m * unit) >= DAY_MS ==> BucketWidth(range, unit) <= m * unit
  {
    var d, span := MAX_BARS * unit, Max(range, DAY_MS);
    var q := CeilDiv(span, d);
    assert m * d == MAX_BARS * (m * unit);
    if m < q {
      MulStep(m, q, d);
    } else if q < m {
      MulStep(q, m, unit);
    }
  }

  /** A count is the number of positions whose time is inside. */
  lemma {:induction false} CountExactly(times: seq<int>, lo: int, hi: int)
    ensures CountIn(times, lo, hi) == |set i | 0 <= i < |times| && lo <= times[i] < hi|
  {
    if times != [] {
      var n := |times| - 1;
      CountExactly(times[..n], lo, hi);
      var inside := set i | 0 <= i < |times| && lo <= times[i] < hi;
      var before := set i | 0 <= i < |times[..n]| && lo <= times[..n][i] < hi;
      if lo <= times[n] < hi {
        assert inside == before + {n};
      } else {
        assert inside == before;
      }
    }
  }
}
