/** The two aggregate queries over the evaluation list: the overall stats
    and the keep-to-yourself summary with its recent-versus-older trend. */
module StoreStats {
  import opened ThinkTypes

  datatype Stats = Stats(total: nat, avgPercentage: int, perfectCount: nat, perfectRate: int)

  /** `Math.round(a / b)` for a positive divisor: the integer nearest to
      `a / b`, halves rounded up. */
  function RoundDiv(a: int, b: int): (r: int)
    requires b > 0
    ensures b * (2 * r - 1) <= 2 * a < b * (2 * r + 1)
  {
    (2 * a + b) / (2 * b)
  }

  /** Rounding a quotient that lies in [lo, hi] stays in [lo, hi], and an
      exact quotient is returned as it is. */
  lemma RoundDivWithin(a: int, b: int, lo: int, hi: int)
    requires b > 0
    requires lo * b <= a <= hi * b
    ensures lo <= RoundDiv(a, b) <= hi
  {
    var r := RoundDiv(a, b);
    assert b * (2 * r - 1) < b * (2 * hi + 1);
    MulCancelLess(b, 2 * r - 1, 2 * hi + 1);
    assert b * (2 * lo - 1) < b * (2 * r + 1);
    MulCancelLess(b, 2 * lo - 1, 2 * r + 1);
  }

  lemma MulCancelLess(b: int, x: int, y: int)
    requires b > 0 && b * x < b * y
    ensures x < y
  {
    assert b * (y - x) == b * y - b * x;
  }

  lemma RoundDivExact(k: int, b: int)
    requires b > 0
    ensures RoundDiv(k * b, b) == k
  {
    RoundDivWithin(k * b, b, k, k);
  }

  /** `reduce((sum, e) => sum + e.percentage, acc)`: left to right, with an
      accumulator. */
  function Reduce(acc: int, es: seq<Evaluation>): int
    decreases |es|
  {
    if |es| == 0 then acc else Reduce(acc + es[0].percentage, es[1..])
  }

  lemma {:induction false} ReduceShift(acc: int, es: seq<Evaluation>)
    ensures Reduce(acc, es) == acc + Reduce(0, es)
    decreases |es|
  {
    if |es| > 0 {
      ReduceShift(acc + es[0].percentage, es[1..]);
      ReduceShift(es[0].percentage, es[1..]);
    }
  }

  /** Sum of the stored percentages: the same number the `reduce` from 0
      computes. */
  function Sum(es: seq<Evaluation>): (s: int)
    ensures s == Reduce(0, es)
  {
    if |es| == 0 then 0
    else
      ReduceShift(es[0].percentage, es[1..]);
      es[0].percentage + Sum(es[1..])
  }

  /** Number of records whose percentage is exactly `v`. */
  function CountPercentage(es: seq<Evaluation>, v: int): (n: nat)
    ensures n <= |es|
    ensures n == 0 <==> forall i :: 0 <= i < |es| ==> es[i].percentage != v
    ensures n == |es| <==> forall i :: 0 <= i < |es| ==> es[i].percentage == v
  {
    if |es| == 0 then 0
    else (if es[0].percentage == v then 1 else 0) + CountPercentage(es[1..], v)
  }

  lemma {:induction false} CountAppend(a: seq<Evaluation>, b: seq<Evaluation>, v: int)
    ensures CountPercentage(a + b, v) == CountPercentage(a, v) + CountPercentage(b, v)
  {
    if |a| > 0 {
      var head := if a[0].percentage == v then 1 else 0;
      assert (a + b)[0] == a[0];
      assert (a + b)[1..] == a[1..] + b;
      assert CountPercentage(a + b, v) == head + CountPercentage(a[1..] + b, v);
      CountAppend(a[1..], b, v);
    } else {
      assert a + b == b;
    }
  }

  /** Every stored percentage lies in [lo, hi]. */
  predicate AllWithin(es: seq<Evaluation>, lo: int, hi: int) {
    forall i :: 0 <= i < |es| ==> lo <= es[i].percentage <= hi
  }

  lemma {:induction false} SumWithin(es: seq<Evaluation>, lo: int, hi: int)
    requires AllWithin(es, lo, hi)
    ensures lo * |es| <= Sum(es) <= hi * |es|
  {
    if |es| > 0 {
      SumWithin(es[1..], lo, hi);
      assert lo * |es| == lo * |es[1..]| + lo;
      assert hi * |es| == hi * |es[1..]| + hi;
    }
  }

  /** `getStats`: nothing for an empty list; otherwise the count, the rounded
      mean percentage, the number of perfect scores and their rounded share. */
  function GetStats(es: seq<Evaluation>): (r: Option<Stats>)
    ensures r.None? <==> |es| == 0
    ensures r.Some? ==> r.value.total == |es|
    ensures r.Some? ==> r.value.perfectCount == CountPercentage(es, 100) <= r.value.total
    ensures r.Some? ==> 0 <= r.value.perfectRate <= 100
    ensures r.Some? ==> |es| * (2 * r.value.avgPercentage - 1) <= 2 * Sum(es) < |es| * (2 * r.value.avgPercentage + 1)
    ensures r.Some? ==>
      |es| * (2 * r.value.perfectRate - 1) <= 200 * r.value.perfectCount < |es| * (2 * r.value.perfectRate + 1)
    ensures r.Some? ==> (r.value.perfectRate == 100 <== r.value.perfectCount == |es|)
    ensures r.Some? ==> (r.value.perfectRate == 0 <== r.value.perfectCount == 0)
  {
    if |es| == 0 then None
    else
      var total := |es|;
      var perfect := CountPercentage(es, 100);
      RoundDivWithin(100 * perfect, total, 0, 100);
      RoundDivExact(100, total);
      RoundDivExact(0, total);
      Some(Stats(total, RoundDiv(Sum(es), total), perfect, RoundDiv(perfect * 100, total)))
  }

  /** The rounded mean never leaves the range the percentages lie in; in
      particular it is in [0, 100] when every percentage is. */
  lemma AverageWithin(es: seq<Evaluation>, lo: int, hi: int)
    requires |es| > 0
    requires AllWithin(es, lo, hi)
    ensures lo <= GetStats(es).value.avgPercentage <= hi
  {
    SumWithin(es, lo, hi);
    RoundDivWithin(Sum(es), |es|, lo, hi);
  }

  /** Share of keep-to-yourself (0%) records in a part of the list; an empty
      part counts as 0. */
  function ZeroRate(part: seq<Evaluation>): (rate: real)
    ensures 0.0 <= rate <= 1.0
    ensures rate == 0.0 <==> CountPercentage(part, 0) == 0
    ensures rate == 1.0 <==> |part| > 0 && CountPercentage(part, 0) == |part|
    ensures |part| > 0 ==> rate == CountPercentage(part, 0) as real / |part| as real
  {
    if |part| > 0 then Ratio(CountPercentage(part, 0), |part|) else 0.0
  }

  /** The exact quotient `c / n` of a count by a larger or equal positive
      total: a real in [0, 1] that gives back `c` when multiplied by `n`. */
  function Ratio(c: nat, n: nat): (q: real)
    requires 0 < n && c <= n
    ensures 0.0 <= q <= 1.0
    ensures q == 0.0 <==> c == 0
    ensures q == 1.0 <==> c == n
    ensures q * n as real == c as real
  {
    var q := c as real / n as real;
    assert q * n as real == c as real;
    assert c == n ==> q == 1.0;
    q
  }

  /** The trend rule: a fall in the rate of more than 0.1 is improving, a rise
      of more than 0.1 is declining, anything in between is stable. */
  function ClassifyTrend(recentRate: real, olderRate: real): (t: Trend)
    ensures t == Improving <==> olderRate - recentRate > 0.1
    ensures t == Declining <==> recentRate - olderRate > 0.1
    ensures t == Stable <==> -0.1 <= recentRate - olderRate <= 0.1
  {
    if recentRate < olderRate - 0.1 then Improving
    else if recentRate > olderRate + 0.1 then Declining
    else Stable
  }

  /** Swapping the halves swaps improving and declining. */
  lemma TrendAntisymmetric(a: real, b: real)
    ensures ClassifyTrend(a, b) == Improving <==> ClassifyTrend(b, a) == Declining
    ensures ClassifyTrend(a, b) == Stable <==> ClassifyTrend(b, a) == Stable
  {
  }

  /** `getKeepToYourselfStats`. */
  function GetKeepToYourselfStats(es: seq<Evaluation>): (r: KeepToYourselfStats)
    ensures |es| == 0 ==> r == KeepToYourselfStats(0, 100, Stable)
    ensures r.totalKeepToYourself == CountPercentage(es, 0)
    ensures 0 <= r.overallScore <= 100
    ensures CountPercentage(es, 0) == 0 ==> r.overallScore == 100
    ensures |es| > 0 && CountPercentage(es, 0) == |es| ==> r.overallScore == 0
    ensures |es| > 0 ==>
      |es| * (2 * r.overallScore - 1) <= 200 * (|es| - CountPercentage(es, 0)) < |es| * (2 * r.overallScore + 1)
    ensures r.recentTrend == ClassifyTrend(ZeroRate(es[..|es| / 2]), ZeroRate(es[|es| / 2..]))
  {
    var totalKeep := CountPercentage(es, 0);
    if |es| == 0 then
      KeepToYourselfStats(0, 100, Stable)
    else
      var n := |es|;
      RoundDivWithin(100 * (n - totalKeep), n, 0, 100);
      RoundDivExact(100, n);
      RoundDivExact(0, n);
      var overallScore := RoundDiv(100 * (n - totalKeep), n);
      var midpoint := n / 2;
      var recent, older := es[..midpoint], es[midpoint..];
      KeepToYourselfStats(totalKeep, overallScore, ClassifyTrend(ZeroRate(recent), ZeroRate(older)))
  }

  /** The total is the two halves' counts added up. */
  lemma KeepSplitsAtMidpoint(es: seq<Evaluation>)
    ensures GetKeepToYourselfStats(es).totalKeepToYourself
      == CountPercentage(es[..|es| / 2], 0) + CountPercentage(es[|es| / 2..], 0)
  {
    assert es == es[..|es| / 2] + es[|es| / 2..];
    CountAppend(es[..|es| / 2], es[|es| / 2..], 0);
  }

  /** Newest half all 0% and older half none: declining. With ten records,
      five 0% ones in front of five 100% ones, the rates are 1 and 0. */
  lemma RecentZerosDecline(es: seq<Evaluation>)
    requires |es| >= 2
    requires forall i :: 0 <= i < |es| / 2 ==> es[i].percentage == 0
    requires forall i :: |es| / 2 <= i < |es| ==> es[i].percentage != 0
    ensures GetKeepToYourselfStats(es).recentTrend == Declining
  {
    var recent, older := es[..|es| / 2], es[|es| / 2..];
    assert CountPercentage(recent, 0) == |recent|;
    assert forall i :: 0 <= i < |older| ==> older[i] == es[|es| / 2 + i];
    assert CountPercentage(older, 0) == 0;
  }

  /** Older half all 0% and newest half none: improving. */
  lemma OlderZerosImprove(es: seq<Evaluation>)
    requires |es| >= 1
    requires forall i :: 0 <= i < |es| / 2 ==> es[i].percentage != 0
    requires forall i :: |es| / 2 <= i < |es| ==> es[i].percentage == 0
    ensures GetKeepToYourselfStats(es).recentTrend == Improving
  {
    var recent, older := es[..|es| / 2], es[|es| / 2..];
    assert CountPercentage(recent, 0) == 0;
    assert forall i :: 0 <= i < |older| ==> older[i] == es[|es| / 2 + i];
    assert CountPercentage(older, 0) == |older|;
  }

  /** A single 0% record reads as improving: the recent half is empty and
      counts as rate 0 against an older rate of 1. */
  lemma SingleZeroReadsImproving(e: Evaluation)
    requires e.percentage == 0
    ensures GetKeepToYourselfStats([e]) == KeepToYourselfStats(1, 0, Improving)
  {
    assert [e][..0] == [];
    assert [e][0..] == [e];
  }

  /** With two or more records all at 0%, both halves have rate 1: stable. */
  lemma AllZerosStable(es: seq<Evaluation>)
    requires |es| >= 2
    requires forall i :: 0 <= i < |es| ==> es[i].percentage == 0
    ensures GetKeepToYourselfStats(es) == KeepToYourselfStats(|es|, 0, Stable)
  {
    var recent, older := es[..|es| / 2], es[|es| / 2..];
    assert forall i :: 0 <= i < |older| ==> older[i] == es[|es| / 2 + i];
    assert CountPercentage(recent, 0) == |recent|;
    assert CountPercentage(older, 0) == |older|;
  }
}
