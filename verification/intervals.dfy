/** The current interval aggregator: every adjacent pair of a producer's sorted
    win years becomes an interval record, and the result is the tie set of
    records at the global minimum and the tie set at the global maximum. */
module Intervals {
  import opened Sorting
  import opened Grouping

  /** One gap between two consecutive wins of a producer (the response record). */
  datatype IntervalRecord = IntervalRecord(producer: string, interval: int, previousWin: int, followingWin: int)

  /** The result pair: records at the minimum interval, records at the maximum. */
  datatype Extremes = Extremes(shortest: seq<IntervalRecord>, longest: seq<IntervalRecord>)

  /** The interval is the forward distance between the two wins it spans. */
  predicate WellFormed(r: IntervalRecord) {
    r.previousWin <= r.followingWin && r.interval == r.followingWin - r.previousWin
  }

  /** One record per adjacent pair of `ys`, in order. */
  function AdjacentIntervals(p: string, ys: seq<int>): (rs: seq<IntervalRecord>)
    ensures |rs| == if |ys| < 2 then 0 else |ys| - 1
  {
    if |ys| < 2 then []
    else seq(|ys| - 1, k requires 0 <= k < |ys| - 1 => IntervalRecord(p, ys[k + 1] - ys[k], ys[k], ys[k + 1]))
  }

  /** The records one producer contributes: none below two wins, else one per
      adjacent pair of its ascending years. */
  function ProducerIntervals(p: string, years: seq<int>): (rs: seq<IntervalRecord>)
    ensures |rs| == if |years| < 2 then 0 else |years| - 1
    ensures forall r :: r in rs ==> r.producer == p && WellFormed(r) && r.interval >= 0
  {
    if |years| < 2 then [] else AdjacentIntervals(p, Sort(years))
  }

  /** Total number of adjacent pairs over the producers `ps`. */
  function PairCount(awards: seq<Award>, ps: seq<string>): nat {
    if |ps| == 0 then 0
    else (if |YearsOf(awards, ps[0])| < 2 then 0 else |YearsOf(awards, ps[0])| - 1) + PairCount(awards, ps[1..])
  }

  /** Emission for the producers `ps`, in that order. */
  function EmitFor(awards: seq<Award>, ps: seq<string>): (rs: seq<IntervalRecord>)
    ensures |rs| == PairCount(awards, ps)
    ensures forall r :: r in rs ==> r.producer in ps && WellFormed(r) && r.interval >= 0
  {
    if |ps| == 0 then []
    else ProducerIntervals(ps[0], YearsOf(awards, ps[0])) + EmitFor(awards, ps[1..])
  }

  /** All interval records, producers in first-appearance order, years ascending. */
  function Emitted(awards: seq<Award>): (rs: seq<IntervalRecord>)
    ensures |rs| == PairCount(awards, Producers(awards))
    ensures forall r :: r in rs ==> r.producer in Producers(awards) && WellFormed(r) && r.interval >= 0
  {
    EmitFor(awards, Producers(awards))
  }

  /** `v` is no greater than any record's interval. */
  ghost predicate IsLeast(v: int, rs: seq<IntervalRecord>) {
    forall r :: r in rs ==> v <= r.interval
  }

  /** `v` is no smaller than any record's interval. */
  ghost predicate IsGreatest(v: int, rs: seq<IntervalRecord>) {
    forall r :: r in rs ==> r.interval <= v
  }

  /** Python's `min` over the records' intervals. */
  function MinInterval(rs: seq<IntervalRecord>): (m: int)
    requires |rs| > 0
    ensures IsLeast(m, rs)
    ensures exists r :: r in rs && r.interval == m
  {
    if |rs| == 1 then rs[0].interval
    else
      var rest := MinInterval(rs[1..]);
      assert rs == [rs[0]] + rs[1..];
      if rs[0].interval <= rest then rs[0].interval else rest
  }

  /** Python's `max` over the records' intervals. */
  function MaxInterval(rs: seq<IntervalRecord>): (m: int)
    requires |rs| > 0
    ensures IsGreatest(m, rs)
    ensures exists r :: r in rs && r.interval == m
  {
    if |rs| == 1 then rs[0].interval
    else
      var rest := MaxInterval(rs[1..]);
      assert rs == [rs[0]] + rs[1..];
      if rs[0].interval >= rest then rs[0].interval else rest
  }

  /** `a` is `b` with some elements dropped, order kept. */
  predicate IsSubsequence<T(==)>(a: seq<T>, b: seq<T>)
    decreases |b|
  {
    if |a| == 0 then true
    else if |b| == 0 then false
    else if a[0] == b[0] then IsSubsequence(a[1..], b[1..])
    else IsSubsequence(a, b[1..])
  }

  /** The list comprehension keeping the records whose interval is `v`. */
  function WithInterval(rs: seq<IntervalRecord>, v: int): (ts: seq<IntervalRecord>)
    ensures forall r :: multiset(ts)[r] == if r.interval == v then multiset(rs)[r] else 0
    ensures IsSubsequence(ts, rs)
  {
    if |rs| == 0 then []
    else
      var rest := WithInterval(rs[1..], v);
      assert rs == [rs[0]] + rs[1..];
      if rs[0].interval == v then [rs[0]] + rest else rest
  }

  /** The aggregator: the tie sets at the minimum and at the maximum interval. */
  function LongestAndShortest(awards: seq<Award>): (res: Extremes)
    ensures res.shortest == [] <==> Emitted(awards) == []
    ensures res.longest == [] <==> Emitted(awards) == []
    ensures IsSubsequence(res.shortest, Emitted(awards))
    ensures IsSubsequence(res.longest, Emitted(awards))
    ensures forall r :: multiset(res.shortest)[r] ==
              if IsLeast(r.interval, Emitted(awards)) then multiset(Emitted(awards))[r] else 0
    ensures forall r :: multiset(res.longest)[r] ==
              if IsGreatest(r.interval, Emitted(awards)) then multiset(Emitted(awards))[r] else 0
  {
    if |awards| == 0 then Extremes([], [])
    else
      var intervals := Emitted(awards);
      if |intervals| == 0 then Extremes([], [])
      else
        var maxValue := MaxInterval(intervals);
        var minValue := MinInterval(intervals);
        Extremes(WithInterval(intervals, minValue), WithInterval(intervals, maxValue))
  }
}
