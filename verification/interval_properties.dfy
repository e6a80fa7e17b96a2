/** Properties of the current aggregator: per-producer contribution, the
    provenance of every record, the no-data case, and tie-set relations. */
module IntervalProperties {
  import opened Sorting
  import opened Grouping
  import opened Intervals

  /** The records of producer `p`, order kept. */
  function OfProducer(rs: seq<IntervalRecord>, p: string): seq<IntervalRecord> {
    if |rs| == 0 then []
    else (if rs[0].producer == p then [rs[0]] else []) + OfProducer(rs[1..], p)
  }

  lemma {:induction false} OfProducerConcat(a: seq<IntervalRecord>, b: seq<IntervalRecord>, p: string)
    ensures OfProducer(a + b, p) == OfProducer(a, p) + OfProducer(b, p)
  {
    if |a| > 0 {
      assert (a + b)[1..] == a[1..] + b;
      OfProducerConcat(a[1..], b, p);
    } else {
      assert a + b == b;
    }
  }

  lemma {:induction false} OfProducerAll(rs: seq<IntervalRecord>, q: string, p: string)
    requires forall r :: r in rs ==> r.producer == q
    ensures OfProducer(rs, p) == if q == p then rs else []
  {
    if |rs| > 0 {
      assert rs[0] in rs;
      assert forall r :: r in rs[1..] ==> r in rs;
      OfProducerAll(rs[1..], q, p);
      assert rs == [rs[0]] + rs[1..];
    }
  }

  lemma {:induction false} EmitForOfProducer(awards: seq<Award>, ps: seq<string>, p: string)
    requires forall i, j :: 0 <= i < j < |ps| ==> ps[i] != ps[j]
    ensures OfProducer(EmitFor(awards, ps), p) ==
              if p in ps then ProducerIntervals(p, YearsOf(awards, p)) else []
  {
    if |ps| > 0 {
      var head := ProducerIntervals(ps[0], YearsOf(awards, ps[0]));
      OfProducerConcat(head, EmitFor(awards, ps[1..]), p);
      OfProducerAll(head, ps[0], p);
      EmitForOfProducer(awards, ps[1..], p);
      assert p in ps <==> p == ps[0] || p in ps[1..];
      if p == ps[0] {
        assert p !in ps[1..];
      }
    }
  }

  /** Each producer contributes exactly its own adjacent-pair records: none
      below two wins, `n - 1` records for `n` wins. */
  lemma ProducerContribution(awards: seq<Award>, p: string)
    ensures OfProducer(Emitted(awards), p) == ProducerIntervals(p, YearsOf(awards, p))
    ensures |OfProducer(Emitted(awards), p)| == if |YearsOf(awards, p)| < 2 then 0 else |YearsOf(awards, p)| - 1
  {
    ProducersAreTheWinners(awards);
    EmitForOfProducer(awards, Producers(awards), p);
    if p !in Producers(awards) {
      YearsOfNonWinner(awards, p);
    }
  }

  /** `p` won `prev` and then `next`, consecutively in its ascending years. */
  ghost predicate OwnsAdjacentPair(awards: seq<Award>, p: string, prev: int, next: int) {
    var ys := Sort(YearsOf(awards, p));
    exists i :: 1 <= i < |ys| && ys[i - 1] == prev && ys[i] == next
  }

  lemma AdjacentProvenance(p: string, ys: seq<int>, r: IntervalRecord)
    requires r in AdjacentIntervals(p, ys)
    ensures r.producer == p
    ensures exists i :: 1 <= i < |ys| && ys[i - 1] == r.previousWin && ys[i] == r.followingWin
  {
    var rs := AdjacentIntervals(p, ys);
    var k :| 0 <= k < |rs| && rs[k] == r;
    assert ys[k + 1 - 1] == r.previousWin && ys[k + 1] == r.followingWin;
  }

  lemma HeadProvenance(awards: seq<Award>, p: string, r: IntervalRecord)
    requires r in ProducerIntervals(p, YearsOf(awards, p))
    ensures OwnsAdjacentPair(awards, r.producer, r.previousWin, r.followingWin)
  {
    AdjacentProvenance(p, Sort(YearsOf(awards, p)), r);
  }

  lemma {:induction false} EmitForProvenance(awards: seq<Award>, ps: seq<string>, r: IntervalRecord)
    requires r in EmitFor(awards, ps)
    ensures OwnsAdjacentPair(awards, r.producer, r.previousWin, r.followingWin)
  {
    var head := ProducerIntervals(ps[0], YearsOf(awards, ps[0]));
    var tail := EmitFor(awards, ps[1..]);
    assert EmitFor(awards, ps) == head + tail;
    if r in head {
      HeadProvenance(awards, ps[0], r);
    } else {
      assert r in tail;
      EmitForProvenance(awards, ps[1..], r);
    }
  }

  /** Every emitted record spans two consecutive sorted wins of its producer,
      and its interval is their difference (zero for a repeated year). */
  lemma RecordProvenance(awards: seq<Award>, r: IntervalRecord)
    requires r in Emitted(awards)
    ensures OwnsAdjacentPair(awards, r.producer, r.previousWin, r.followingWin)
    ensures r.interval == r.followingWin - r.previousWin >= 0
  {
    EmitForProvenance(awards, Producers(awards), r);
  }

  /** The `k`-th adjacent-pair record spans the `k`-th and `k+1`-th years. */
  lemma AdjacentAt(p: string, s: seq<int>, k: int)
    requires 0 <= k < |s| - 1
    ensures AdjacentIntervals(p, s)[k] == IntervalRecord(p, s[k + 1] - s[k], s[k], s[k + 1])
  {
  }

  /** The converse of `RecordProvenance`: a producer's slice of the emission
      holds every consecutive pair of its sorted years exactly once, in order. */
  lemma ProducerRecordsAreItsPairs(awards: seq<Award>, p: string, s: seq<int>, k: int)
    requires s == Sort(YearsOf(awards, p))
    requires 0 <= k < |s| - 1
    ensures |OfProducer(Emitted(awards), p)| == |s| - 1
    ensures OfProducer(Emitted(awards), p)[k] == IntervalRecord(p, s[k + 1] - s[k], s[k], s[k + 1])
  {
    ProducerContribution(awards, p);
    AdjacentAt(p, s, k);
  }

  /** The blocks joined end to end. */
  function Flatten<T>(bs: seq<seq<T>>): seq<T> {
    if |bs| == 0 then [] else bs[0] + Flatten(bs[1..])
  }

  /** Where block `a` starts in `Flatten(bs)`. */
  function Start<T>(bs: seq<seq<T>>, a: nat): nat
    requires a <= |bs|
  {
    if a == 0 then 0 else |bs[0]| + Start(bs[1..], a - 1)
  }

  /** A slice of the right-hand part of a concatenation. */
  lemma SliceOfConcat<T>(x: seq<T>, y: seq<T>, lo: int, hi: int)
    requires 0 <= lo <= hi <= |y|
    ensures (x + y)[|x| + lo..|x| + hi] == y[lo..hi]
  {
  }

  /** Block `a` of a flattening sits right after block `a - 1`. */
  lemma {:induction false} FlattenBlock<T>(bs: seq<seq<T>>, a: nat)
    requires a < |bs|
    ensures Start(bs, a + 1) == Start(bs, a) + |bs[a]| <= |Flatten(bs)|
    ensures Flatten(bs)[Start(bs, a)..Start(bs, a + 1)] == bs[a]
  {
    assert Flatten(bs) == bs[0] + Flatten(bs[1..]);
    if a == 0 {
      assert Start(bs[1..], 0) == 0;
      assert (bs[0] + Flatten(bs[1..]))[..|bs[0]|] == bs[0];
    } else {
      FlattenBlock(bs[1..], a - 1);
      assert bs[1..][a - 1] == bs[a];
      SliceOfConcat(bs[0], Flatten(bs[1..]), Start(bs[1..], a - 1), Start(bs[1..], a));
    }
  }

  /** The per-producer record blocks for the producers `ps`. */
  function Blocks(awards: seq<Award>, ps: seq<string>): seq<seq<IntervalRecord>> {
    seq(|ps|, a requires 0 <= a < |ps| => ProducerIntervals(ps[a], YearsOf(awards, ps[a])))
  }

  lemma {:induction false} EmitForIsFlatten(awards: seq<Award>, ps: seq<string>)
    ensures EmitFor(awards, ps) == Flatten(Blocks(awards, ps))
  {
    if |ps| > 0 {
      EmitForIsFlatten(awards, ps[1..]);
      assert Blocks(awards, ps)[1..] == Blocks(awards, ps[1..]);
    }
  }

  /** The emission is one block per producer, in first-appearance order: block
      `a` sits right after block `a - 1` and holds exactly the adjacent-pair
      records of the `a`-th producer, so producers' records never interleave. */
  lemma EmittedBlocks(awards: seq<Award>, a: nat)
    requires a < |Producers(awards)|
    ensures var ps := Producers(awards);
            var bs := Blocks(awards, ps);
            Start(bs, a + 1) == Start(bs, a) + |ProducerIntervals(ps[a], YearsOf(awards, ps[a]))| <= |Emitted(awards)| &&
            Emitted(awards)[Start(bs, a)..Start(bs, a + 1)] == ProducerIntervals(ps[a], YearsOf(awards, ps[a]))
  {
    var ps := Producers(awards);
    EmitForIsFlatten(awards, ps);
    FlattenBlock(Blocks(awards, ps), a);
  }

  lemma {:induction false} EmitForNone(awards: seq<Award>, ps: seq<string>)
    requires forall p :: p in ps ==> |YearsOf(awards, p)| < 2
    ensures EmitFor(awards, ps) == []
  {
    if |ps| > 0 {
      assert ps[0] in ps;
      assert forall p :: p in ps[1..] ==> p in ps;
      EmitForNone(awards, ps[1..]);
    }
  }

  /** No awards, or no producer with two wins: both tie sets are empty. */
  lemma NoRepeatWinnerGivesEmpty(awards: seq<Award>)
    requires forall p :: |YearsOf(awards, p)| < 2
    ensures Emitted(awards) == []
    ensures LongestAndShortest(awards) == Extremes([], [])
  {
    EmitForNone(awards, Producers(awards));
  }

  /** Every shortest record is an emitted record at the minimum, every longest
      one an emitted record at the maximum, and no shortest exceeds a longest. */
  lemma TieSetsBracket(awards: seq<Award>)
    ensures forall a :: a in LongestAndShortest(awards).shortest ==>
              a in Emitted(awards) && IsLeast(a.interval, Emitted(awards))
    ensures forall b :: b in LongestAndShortest(awards).longest ==>
              b in Emitted(awards) && IsGreatest(b.interval, Emitted(awards))
    ensures forall a, b :: a in LongestAndShortest(awards).shortest && b in LongestAndShortest(awards).longest ==>
              a.interval <= b.interval
  {
    var res := LongestAndShortest(awards);
    var e := Emitted(awards);
    forall a | a in res.shortest
      ensures a in e && IsLeast(a.interval, e)
    {
      assert multiset(res.shortest)[a] > 0;
    }
    forall b | b in res.longest
      ensures b in e && IsGreatest(b.interval, e)
    {
      assert multiset(res.longest)[b] > 0;
    }
  }

  /** When every emitted record has the same interval, the two tie sets coincide. */
  lemma AllEqualGivesSameTieSets(awards: seq<Award>)
    requires forall i, j :: 0 <= i < j < |Emitted(awards)| ==> Emitted(awards)[i].interval == Emitted(awards)[j].interval
    ensures LongestAndShortest(awards).shortest == LongestAndShortest(awards).longest
  {
    var e := Emitted(awards);
    if |awards| > 0 && |e| > 0 {
      var lo, hi := MinInterval(e), MaxInterval(e);
      var a :| a in e && a.interval == lo;
      var b :| b in e && b.interval == hi;
      var i :| 0 <= i < |e| && e[i] == a;
      var j :| 0 <= j < |e| && e[j] == b;
      assert e[i].interval == e[j].interval;
    }
  }

  /** The first record of a tie set is the first emitted record at that interval. */
  lemma {:induction false} TieSetHead(rs: seq<IntervalRecord>, v: int, k: int)
    requires 0 <= k < |rs| && rs[k].interval == v
    requires forall j :: 0 <= j < k ==> rs[j].interval != v
    ensures |WithInterval(rs, v)| > 0 && WithInterval(rs, v)[0] == rs[k]
  {
    if k > 0 {
      TieSetHead(rs[1..], v, k - 1);
    }
  }

  lemma EmitForCons(awards: seq<Award>, p: string, ps: seq<string>)
    ensures EmitFor(awards, [p] + ps) == ProducerIntervals(p, YearsOf(awards, p)) + EmitFor(awards, ps)
  {
    assert ([p] + ps)[1..] == ps;
  }

  lemma EmitForOne(awards: seq<Award>, q: string)
    ensures EmitFor(awards, [q]) == ProducerIntervals(q, YearsOf(awards, q))
  {
    assert [q] == [q] + [];
    EmitForCons(awards, q, []);
  }

  lemma EmitForTwo(awards: seq<Award>, p: string, q: string)
    ensures EmitFor(awards, [p, q]) == ProducerIntervals(p, YearsOf(awards, p)) + EmitFor(awards, [q])
  {
    assert [p, q] == [p] + [q];
    EmitForCons(awards, p, [q]);
  }

  lemma EmittedOfTwo(awards: seq<Award>, p: string, q: string)
    requires Producers(awards) == [p, q]
    ensures Emitted(awards) == ProducerIntervals(p, YearsOf(awards, p)) + ProducerIntervals(q, YearsOf(awards, q))
  {
    EmitForOne(awards, q);
    EmitForTwo(awards, p, q);
  }

  /** The record for one producer's two wins, in either listed order. */
  function PairRecord(p: string, x: int, y: int): IntervalRecord {
    if x <= y then IntervalRecord(p, y - x, x, y) else IntervalRecord(p, x - y, y, x)
  }

  /** A pair of years sorts to its smaller year first, whichever order it was listed in. */
  lemma SortTwo(x: int, y: int)
    ensures Sort([x, y]) == if x <= y then [x, y] else [y, x]
  {
    if x <= y {
      SortIsTheSortedPermutation([x, y], [x, y]);
    } else {
      assert multiset([x, y]) == multiset([y, x]);
      SortIsTheSortedPermutation([x, y], [y, x]);
    }
  }

  /** Two wins give one record spanning them. */
  lemma PairIntervals(p: string, x: int, y: int)
    ensures ProducerIntervals(p, [x, y]) == [PairRecord(p, x, y)]
  {
    SortTwo(x, y);
    var s := Sort([x, y]);
    var rs := AdjacentIntervals(p, s);
    assert |rs| == 1 && rs[0] == PairRecord(p, x, y);
  }

  lemma TwoProducersGrouping(p: string, q: string, y1: int, y2: int, y3: int, y4: int)
    requires p != q
    ensures Producers([(p, y1), (p, y2), (q, y3), (q, y4)]) == [p, q]
    ensures YearsOf([(p, y1), (p, y2), (q, y3), (q, y4)], p) == [y1, y2]
    ensures YearsOf([(p, y1), (p, y2), (q, y3), (q, y4)], q) == [y3, y4]
  {
    var a0, a1, a2, a3 := (p, y1), (p, y2), (q, y3), (q, y4);
    var w1 := [] + [a0];
    var w2 := w1 + [a1];
    var w3 := w2 + [a2];
    assert [a0, a1, a2, a3] == w3 + [a3];
    ProducersSnoc([], a0);
    ProducersSnoc(w1, a1);
    ProducersSnoc(w2, a2);
    ProducersSnoc(w3, a3);
    YearsOfSnoc([], a0, p);
    YearsOfSnoc(w1, a1, p);
    YearsOfSnoc(w2, a2, p);
    YearsOfSnoc(w3, a3, p);
    YearsOfSnoc([], a0, q);
    YearsOfSnoc(w1, a1, q);
    YearsOfSnoc(w2, a2, q);
    YearsOfSnoc(w3, a3, q);
  }

  lemma TwoProducersEmitted(p: string, q: string, y1: int, y2: int, y3: int, y4: int)
    requires p != q
    ensures Emitted([(p, y1), (p, y2), (q, y3), (q, y4)]) == [PairRecord(p, y1, y2), PairRecord(q, y3, y4)]
  {
    var awards := [(p, y1), (p, y2), (q, y3), (q, y4)];
    TwoProducersGrouping(p, q, y1, y2, y3, y4);
    PairIntervals(p, y1, y2);
    PairIntervals(q, y3, y4);
    EmittedOfTwo(awards, p, q);
  }

  /** Two producers with two wins each, years listed in any order: the smaller
      gap is the only shortest record and the larger gap the only longest one;
      equal gaps put both records, first-listed producer first, in both tie sets. */
  lemma TwoProducers(p: string, q: string, y1: int, y2: int, y3: int, y4: int)
    requires p != q
    ensures var a, b := PairRecord(p, y1, y2), PairRecord(q, y3, y4);
            LongestAndShortest([(p, y1), (p, y2), (q, y3), (q, y4)]) ==
              if b.interval < a.interval then Extremes([b], [a])
              else if a.interval < b.interval then Extremes([a], [b])
              else Extremes([a, b], [a, b])
  {
    TwoProducersEmitted(p, q, y1, y2, y3, y4);
    TwoRecordExtremes(PairRecord(p, y1, y2), PairRecord(q, y3, y4));
  }

  /** The tie sets of a two-record emission. */
  lemma TwoRecordExtremes(a: IntervalRecord, b: IntervalRecord)
    ensures b.interval < a.interval ==>
              MinInterval([a, b]) == b.interval && MaxInterval([a, b]) == a.interval &&
              WithInterval([a, b], b.interval) == [b] && WithInterval([a, b], a.interval) == [a]
    ensures a.interval < b.interval ==>
              MinInterval([a, b]) == a.interval && MaxInterval([a, b]) == b.interval &&
              WithInterval([a, b], a.interval) == [a] && WithInterval([a, b], b.interval) == [b]
    ensures a.interval == b.interval ==>
              MinInterval([a, b]) == a.interval && MaxInterval([a, b]) == a.interval &&
              WithInterval([a, b], a.interval) == [a, b]
  {
    assert [a, b][1..] == [b];
    assert WithInterval([b], b.interval) == [b];
    if a.interval != b.interval {
      assert WithInterval([b], a.interval) == [];
    }
  }

  /** John wins 2000 and 2005, Jane 2010 and 2012, in the order the rows were
      inserted: Jane holds the shortest gap and John the longest. */
  lemma JohnAndJane()
    ensures LongestAndShortest([("John", 2000), ("John", 2005), ("Jane", 2010), ("Jane", 2012)]) ==
              Extremes([IntervalRecord("Jane", 2, 2010, 2012)], [IntervalRecord("John", 5, 2000, 2005)])
  {
    TwoProducers("John", "Jane", 2000, 2005, 2010, 2012);
  }

  /** The same rows in the order the store query returns them, by producer name
      and then year: the answer is the same. */
  lemma JaneAndJohn()
    ensures LongestAndShortest([("Jane", 2010), ("Jane", 2012), ("John", 2000), ("John", 2005)]) ==
              Extremes([IntervalRecord("Jane", 2, 2010, 2012)], [IntervalRecord("John", 5, 2000, 2005)])
  {
    TwoProducers("Jane", "John", 2010, 2012, 2000, 2005);
  }
}
