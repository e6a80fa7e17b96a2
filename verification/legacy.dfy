/** The legacy aggregator: the same grouping and adjacent-pair walk, but only
    one running best for each extreme, replaced on a strictly better interval. */
module LegacyIntervals {
  import opened Wrappers
  import opened Grouping
  import opened Intervals
  import opened IntervalProperties

  /** The running shortest interval: a finite value, or the initial `float("inf")`. */
  datatype Bound = Finite(value: int) | Infinity

  /** The returned 4-tuple; `None` stands for Python's `None`. */
  datatype LegacyAnswer = LegacyAnswer(
    longestProducer: Option<string>,
    longestInterval: Option<int>,
    shortestProducer: Option<string>,
    shortestInterval: Option<Bound>)

  /** `n < b`, with every integer below infinity. */
  predicate Below(n: int, b: Bound) {
    b.Infinity? || n < b.value
  }

  /** Record `k` is the first one walked whose interval reaches `v`. */
  ghost predicate FirstReaching(rs: seq<IntervalRecord>, k: int, v: int) {
    0 <= k < |rs| && rs[k].interval == v && forall j :: 0 <= j < k ==> rs[j].interval < v
  }

  /** Record `k` is the first one walked whose interval drops to `v`. */
  ghost predicate FirstDropping(rs: seq<IntervalRecord>, k: int, v: int) {
    0 <= k < |rs| && rs[k].interval == v && forall j :: 0 <= j < k ==> rs[j].interval > v
  }

  /** The state the walk keeps: the running longest interval (from 0) and
      the running shortest (from infinity), each with its producer. */
  datatype Running = Running(
    longestProducer: Option<string>, longest: int,
    shortestProducer: Option<string>, shortest: Bound)

  /** What the walk has established after visiting the records `rs`. */
  ghost predicate Walked(rs: seq<IntervalRecord>, st: Running) {
    // the longest starts at 0, bounds every interval seen, and only a
    // strictly positive interval ever names a producer, the first to reach it
    && st.longest >= 0
    && (forall j :: 0 <= j < |rs| ==> rs[j].interval <= st.longest)
    && (st.longestProducer == None <==> forall j :: 0 <= j < |rs| ==> rs[j].interval <= 0)
    && (st.longestProducer == None ==> st.longest == 0)
    && (st.longestProducer.Some? ==>
          exists k :: FirstReaching(rs, k, st.longest) && rs[k].producer == st.longestProducer.value)
    // the shortest stays infinite until the first record, then bounds every
    // interval seen from below and names the first producer to reach it
    && (st.shortest.Infinity? <==> |rs| == 0)
    && (st.shortestProducer.Some? <==> |rs| > 0)
    && (st.shortest.Finite? ==>
          (forall j :: 0 <= j < |rs| ==> st.shortest.value <= rs[j].interval) &&
          exists k :: FirstDropping(rs, k, st.shortest.value) && rs[k].producer == st.shortestProducer.value)
  }

  /** The nested loop of the legacy function, over the adjacent-pair records
      in walk order: only a strictly longer or strictly shorter interval
      replaces the current best. */
  method Walk(rs: seq<IntervalRecord>) returns (st: Running)
    ensures Walked(rs, st)
  {
    st := Running(None, 0, None, Infinity);
    var i := 0;
    while i < |rs|
      invariant 0 <= i <= |rs|
      invariant st.longest >= 0
      invariant forall j :: 0 <= j < i ==> rs[j].interval <= st.longest
      invariant st.longestProducer == None <==> forall j :: 0 <= j < i ==> rs[j].interval <= 0
      invariant st.longestProducer == None ==> st.longest == 0
      invariant st.longestProducer.Some? ==>
                  exists k :: k < i && FirstReaching(rs, k, st.longest) && rs[k].producer == st.longestProducer.value
      invariant st.shortest.Infinity? <==> i == 0
      invariant st.shortestProducer.Some? <==> i > 0
      invariant st.shortest.Finite? ==>
                  (forall j :: 0 <= j < i ==> st.shortest.value <= rs[j].interval) &&
                  exists k :: k < i && FirstDropping(rs, k, st.shortest.value) && rs[k].producer == st.shortestProducer.value
    {
      var r := rs[i];
      if r.interval > st.longest {
        st := st.(longestProducer := Some(r.producer), longest := r.interval);
      }
      if Below(r.interval, st.shortest) {
        st := st.(shortestProducer := Some(r.producer), shortest := Finite(r.interval));
      }
      i := i + 1;
    }
  }

  /** A producer the walk names really won the two years of a gap of the named size. */
  lemma WalkProvenance(awards: seq<Award>, st: Running)
    requires Walked(Emitted(awards), st)
    ensures st.longestProducer.Some? ==>
              exists prev, next :: OwnsAdjacentPair(awards, st.longestProducer.value, prev, next) &&
                                   next - prev == st.longest
    ensures st.shortestProducer.Some? ==>
              st.shortest.Finite? &&
              exists prev, next :: OwnsAdjacentPair(awards, st.shortestProducer.value, prev, next) &&
                                   next - prev == st.shortest.value
  {
    var rs := Emitted(awards);
    if st.longestProducer.Some? {
      var k :| FirstReaching(rs, k, st.longest) && rs[k].producer == st.longestProducer.value;
      IndexProvenance(awards, k);
      assert OwnsAdjacentPair(awards, st.longestProducer.value, rs[k].previousWin, rs[k].followingWin);
    }
    if st.shortestProducer.Some? {
      var k :| FirstDropping(rs, k, st.shortest.value) && rs[k].producer == st.shortestProducer.value;
      IndexProvenance(awards, k);
      assert OwnsAdjacentPair(awards, st.shortestProducer.value, rs[k].previousWin, rs[k].followingWin);
    }
  }

  lemma IndexProvenance(awards: seq<Award>, k: int)
    requires 0 <= k < |Emitted(awards)|
    ensures var r := Emitted(awards)[k];
            OwnsAdjacentPair(awards, r.producer, r.previousWin, r.followingWin) &&
            r.followingWin - r.previousWin == r.interval
  {
    RecordProvenance(awards, Emitted(awards)[k]);
  }

  /** Against the current version: the walk's picks are the heads of the tie
      sets, except that an all-zero longest names no producer. */
  lemma WalkAgainstTieSets(awards: seq<Award>, st: Running)
    requires Walked(Emitted(awards), st)
    ensures Emitted(awards) != [] ==>
              st.shortestProducer == Some(LongestAndShortest(awards).shortest[0].producer) &&
              st.shortest == Finite(LongestAndShortest(awards).shortest[0].interval)
    ensures st.longestProducer.Some? ==>
              st.longestProducer == Some(LongestAndShortest(awards).longest[0].producer) &&
              st.longest == LongestAndShortest(awards).longest[0].interval
    ensures st.longestProducer == None && Emitted(awards) != [] ==>
              LongestAndShortest(awards).longest[0].interval == 0
  {
    var rs := Emitted(awards);
    if rs != [] {
      var k :| FirstDropping(rs, k, st.shortest.value) && rs[k].producer == st.shortestProducer.value;
      assert IsLeast(st.shortest.value, rs);
      ShortestHead(awards, k, st.shortest.value);
    }
    if st.longestProducer.Some? {
      var k :| FirstReaching(rs, k, st.longest) && rs[k].producer == st.longestProducer.value;
      assert IsGreatest(st.longest, rs);
      LongestHead(awards, k, st.longest);
    }
    if st.longestProducer == None && rs != [] {
      TieSetsBracket(awards);
      var b := LongestAndShortest(awards).longest[0];
      assert b in LongestAndShortest(awards).longest;
    }
  }

  /** `get_producers_with_longest_and_shortest_intervals`, legacy version. */
  method LegacyLongestAndShortest(awards: seq<Award>) returns (answer: LegacyAnswer)
    // no awards at all: four Nones, otherwise both intervals are present
    ensures |awards| == 0 <==> answer == LegacyAnswer(None, None, None, None)
    ensures |awards| > 0 ==> answer.longestInterval.Some? && answer.shortestInterval.Some?
    // the longest interval bounds every pair and is never below its start value 0
    ensures answer.longestInterval.Some? ==>
              answer.longestInterval.value >= 0 && IsGreatest(answer.longestInterval.value, Emitted(awards))
    // all gaps zero (or none at all): no longest producer and a longest interval of 0
    ensures |awards| > 0 ==>
              (answer.longestProducer == None <==> forall r :: r in Emitted(awards) ==> r.interval == 0)
    ensures |awards| > 0 && answer.longestProducer == None ==> answer.longestInterval == Some(0)
    // a longest producer is the first one reached at that strictly positive interval
    ensures answer.longestProducer.Some? ==>
              answer.longestInterval.Some? && answer.longestInterval.value > 0 &&
              exists k :: FirstReaching(Emitted(awards), k, answer.longestInterval.value) &&
                          Emitted(awards)[k].producer == answer.longestProducer.value
    // awards but no producer with two wins: the shortest stays infinite
    ensures |awards| > 0 && Emitted(awards) == [] ==>
              answer.shortestInterval == Some(Infinity) && answer.shortestProducer == None &&
              answer.longestProducer == None
    // otherwise the shortest is a finite lower bound, reached first by its producer
    ensures Emitted(awards) != [] ==>
              answer.shortestInterval.Some? && answer.shortestInterval.value.Finite? &&
              IsLeast(answer.shortestInterval.value.value, Emitted(awards)) &&
              answer.shortestProducer.Some? &&
              exists k :: FirstDropping(Emitted(awards), k, answer.shortestInterval.value.value) &&
                          Emitted(awards)[k].producer == answer.shortestProducer.value
  {
    if |awards| == 0 {
      return LegacyAnswer(None, None, None, None);
    }
    var rs := Emitted(awards);
    var st := Walk(rs);
    answer := LegacyAnswer(st.longestProducer, Some(st.longest), st.shortestProducer, Some(st.shortest));
  }

  /** The first record walked at the minimum heads the current shortest tie set. */
  lemma ShortestHead(awards: seq<Award>, k: int, v: int)
    requires FirstDropping(Emitted(awards), k, v) && IsLeast(v, Emitted(awards))
    ensures LongestAndShortest(awards).shortest != []
    ensures LongestAndShortest(awards).shortest[0] == Emitted(awards)[k]
  {
    var e := Emitted(awards);
    var m := MinInterval(e);
    assert e[k] in e;
    var r :| r in e && r.interval == m;
    assert m == v;
    TieSetHead(e, v, k);
  }

  /** The first record walked at the maximum heads the current longest tie set. */
  lemma LongestHead(awards: seq<Award>, k: int, v: int)
    requires FirstReaching(Emitted(awards), k, v) && IsGreatest(v, Emitted(awards))
    ensures LongestAndShortest(awards).longest != []
    ensures LongestAndShortest(awards).longest[0] == Emitted(awards)[k]
  {
    var e := Emitted(awards);
    var m := MaxInterval(e);
    assert e[k] in e;
    var r :| r in e && r.interval == m;
    assert m == v;
    TieSetHead(e, v, k);
  }
}
