/**
 The summary `ping` prints after its loop (ping.py lines 176-192): the
 counts, the loss percentage, and, when at least one reply arrived, the
 shortest, longest and average delay in milliseconds.
 */
module Stats {
  import opened Base

  predicate Sorted(s: seq<int>) {
    forall i, j :: 0 <= i < j < |s| ==> s[i] <= s[j]
  }

  /** `x` placed before the first larger element of the sorted `s`. */
  function Insert(x: int, s: seq<int>): (r: seq<int>)
    requires Sorted(s)
    ensures Sorted(r)
    ensures multiset(r) == multiset(s) + multiset{x}
    ensures |r| == |s| + 1
    ensures r[0] == if |s| == 0 || x <= s[0] then x else s[0]
  {
    if |s| == 0 then [x]
    else if x <= s[0] then ConsSorted(x, s); [x] + s
    else
      assert s == [s[0]] + s[1..];
      var rest := Insert(x, s[1..]);
      ConsSorted(s[0], rest);
      [s[0]] + rest
  }

  /** A value no larger than the head of a sorted sequence extends it sorted. */
  lemma ConsSorted(x: int, s: seq<int>)
    requires Sorted(s) && (|s| > 0 ==> x <= s[0])
    ensures Sorted([x] + s)
  {
    forall i, j | 0 <= i < j < |s| + 1
      ensures ([x] + s)[i] <= ([x] + s)[j]
    {
      if i > 0 {
        assert ([x] + s)[i] == s[i - 1];
      }
    }
  }

  /** Python's `sorted` on a list of integers: an ordered permutation. */
  function Sort(s: seq<int>): (r: seq<int>)
    ensures Sorted(r)
    ensures multiset(r) == multiset(s)
  {
    if |s| == 0 then []
    else
      assert s == [s[0]] + s[1..];
      Insert(s[0], Sort(s[1..]))
  }

  /** Python's `sum`. */
  function Sum(s: seq<int>): int
  {
    if |s| == 0 then 0 else s[0] + Sum(s[1..])
  }

  /**
   `int(a / b)` for a positive `b`: the quotient truncated toward zero,
   which is the floor for a non-negative dividend and the ceiling otherwise.
   */
  function TruncDiv(a: int, b: int): (q: int)
    requires b > 0
    ensures a >= 0 ==> q * b <= a < (q + 1) * b
    ensures a < 0 ==> (q - 1) * b < a <= q * b
  {
    if a >= 0 then a / b else -((-a) / b)
  }

  /** The delay part of the summary: absent when no reply arrived (line 187). */
  datatype DelaySummary = CountsOnly | Spread(shortest: int, longest: int, average: int)

  /**
   What the summary reports. `lossPercent` is `None` where `loss / times`
   raises ZeroDivisionError, which happens when the session is interrupted
   before its first probe completes.
   */
  datatype Statistics = Statistics(
    sent: nat, received: nat, lost: nat, lossPercent: Option<real>, delays: DelaySummary)

  /** `p` is `part` as a percentage of `whole`: `p == part / whole * 100`, stated without division. */
  predicate IsPercent(p: real, part: nat, whole: nat) {
    p * whole as real == part as real * 100.0
  }

  /** `loss / times * 100`, over the rationals instead of floating point. */
  function LossPercent(loss: nat, times: nat): (r: Option<real>)
    ensures r.Some? <==> times > 0
    ensures r.Some? ==> IsPercent(r.value, loss, times)
    ensures r.Some? && loss == 0 ==> r.value == 0.0
    ensures r.Some? && loss == times ==> r.value == 100.0
    ensures r.Some? && loss <= times ==> 0.0 <= r.value <= 100.0
  {
    if times == 0 then None else Some((loss as real / times as real) * 100.0)
  }

  /**
   `d` gives what lines 184-185 print for `delays`: the least and greatest
   delay, and the average `int(sum(delays) / len(delays))`.
   */
  predicate Describes(d: DelaySummary, delays: seq<int>) {
    d.Spread? ==>
      && |delays| > 0
      && d.shortest in delays && d.longest in delays
      && (forall i :: 0 <= i < |delays| ==> d.shortest <= delays[i] <= d.longest)
      && d.average == TruncDiv(Sum(delays), |delays|)
  }

  /**
   Lines 177 and 184-185: the shortest and longest delay are the ends of the
   sorted list and the average is `int(sum(delays) / len(delays))`; an empty
   list takes the counts-only branch of line 187.
   */
  function SummarizeDelays(delays: seq<int>): (d: DelaySummary)
    ensures d.CountsOnly? <==> |delays| == 0
    ensures Describes(d, delays)
    ensures d.Spread? ==> d.shortest <= d.average <= d.longest
  {
    if |delays| == 0 then CountsOnly
    else
      var sorted := Sort(delays);
      SortedEnds(delays, sorted);
      AverageBetween(delays, sorted[0], sorted[|sorted| - 1]);
      Spread(sorted[0], sorted[|sorted| - 1], TruncDiv(Sum(delays), |delays|))
  }

  /** Lines 176-192: the counts, the loss percentage and the delay summary. */
  function Summarize(sendTimes: nat, receiveTimes: nat, loss: nat, times: nat, delays: seq<int>): (st: Statistics)
    ensures st.sent == sendTimes && st.received == receiveTimes && st.lost == loss
    ensures st.lossPercent.Some? <==> times > 0
    ensures st.lossPercent.Some? ==> IsPercent(st.lossPercent.value, loss, times)
    ensures st.lossPercent.Some? && loss <= times ==> 0.0 <= st.lossPercent.value <= 100.0
    ensures st.delays.CountsOnly? <==> |delays| == 0
    ensures Describes(st.delays, delays)
    ensures st.delays.Spread? ==> st.delays.shortest <= st.delays.average <= st.delays.longest
  {
    Statistics(sendTimes, receiveTimes, loss, LossPercent(loss, times), SummarizeDelays(delays))
  }

  /** The ends of a sorted permutation are the least and greatest elements. */
  lemma SortedEnds(s: seq<int>, sorted: seq<int>)
    requires |s| > 0 && Sorted(sorted) && multiset(sorted) == multiset(s)
    ensures sorted[0] in s && sorted[|sorted| - 1] in s
    ensures forall i :: 0 <= i < |s| ==> sorted[0] <= s[i] <= sorted[|sorted| - 1]
  {
    assert |sorted| == |multiset(sorted)| == |multiset(s)| == |s|;
    assert sorted[0] in multiset(sorted);
    assert sorted[|sorted| - 1] in multiset(sorted);
    forall i | 0 <= i < |s|
      ensures sorted[0] <= s[i] <= sorted[|sorted| - 1]
    {
      assert s[i] in multiset(sorted);
      var j :| 0 <= j < |sorted| && sorted[j] == s[i];
    }
  }

  /** The sum of `s` lies between `|s|` times a lower and an upper bound of it. */
  lemma {:induction false} SumBetween(s: seq<int>, lo: int, hi: int)
    requires forall i :: 0 <= i < |s| ==> lo <= s[i] <= hi
    ensures lo * |s| <= Sum(s) <= hi * |s|
  {
    if |s| > 0 {
      SumBetween(s[1..], lo, hi);
      assert lo * |s| == lo + lo * (|s| - 1);
      assert hi * |s| == hi + hi * (|s| - 1);
    }
  }

  /** The truncated average lies between the least and the greatest delay. */
  lemma AverageBetween(s: seq<int>, lo: int, hi: int)
    requires |s| > 0
    requires forall i :: 0 <= i < |s| ==> lo <= s[i] <= hi
    ensures lo <= TruncDiv(Sum(s), |s|) <= hi
  {
    SumBetween(s, lo, hi);
    QuotientBetween(Sum(s), |s|, lo, hi);
  }

  /** A dividend between `lo * n` and `hi * n` has its truncated quotient between `lo` and `hi`. */
  lemma QuotientBetween(a: int, n: int, lo: int, hi: int)
    requires n > 0 && lo * n <= a <= hi * n
    ensures lo <= TruncDiv(a, n) <= hi
  {
    var q := TruncDiv(a, n);
    assert (q + 1) * n == q * n + n;
    assert (q - 1) * n == q * n - n;
    if q < lo {
      // then (q + 1) * n <= lo * n <= a, against both truncation bounds
      MulMono(q + 1, lo, n);
    }
    if q > hi {
      // then a <= hi * n <= (q - 1) * n, against both truncation bounds
      MulMono(hi, q - 1, n);
    }
  }

  lemma MulMono(a: int, b: int, n: int)
    requires a <= b && n >= 0
    ensures a * n <= b * n
  {
    assert b * n == a * n + (b - a) * n;
  }
}
