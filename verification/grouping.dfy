/** Grouping of winning (producer, year) pairs by exact producer name, in the
    order each producer first appears (the insertion order of a Python dict). */
module Grouping {

  /** One winning row as the store query yields it: (producer, year). */
  type Award = (string, int)

  /** `p` won at least one award. */
  predicate Appears(awards: seq<Award>, p: string) {
    exists k :: 0 <= k < |awards| && awards[k].0 == p
  }

  /** The dict's keys: producer names in order of first appearance. */
  function Producers(awards: seq<Award>): seq<string> {
    if |awards| == 0 then []
    else
      var ps := Producers(awards[..|awards| - 1]);
      var p := awards[|awards| - 1].0;
      if p in ps then ps else ps + [p]
  }

  /** The dict's value for `p`: the years won by `p`, in input order. */
  function YearsOf(awards: seq<Award>, p: string): seq<int> {
    if |awards| == 0 then []
    else
      var last := awards[|awards| - 1];
      YearsOf(awards[..|awards| - 1], p) + (if last.0 == p then [last.1] else [])
  }

  /** The keys are distinct and are exactly the producers that won. */
  lemma {:induction false} ProducersAreTheWinners(awards: seq<Award>)
    ensures forall i, j :: 0 <= i < j < |Producers(awards)| ==> Producers(awards)[i] != Producers(awards)[j]
    ensures forall p :: p in Producers(awards) <==> Appears(awards, p)
  {
    if |awards| > 0 {
      var front := awards[..|awards| - 1];
      ProducersAreTheWinners(front);
      assert forall k :: 0 <= k < |front| ==> front[k] == awards[k];
      forall p | Appears(awards, p)
        ensures p in Producers(awards)
      {
        var k :| 0 <= k < |awards| && awards[k].0 == p;
        if k < |front| {
          assert front[k].0 == p;
        }
      }
    }
  }

  /** A producer's year list holds each year as often as the input holds the pair. */
  lemma {:induction false} YearsOfCounts(awards: seq<Award>, p: string)
    ensures forall y :: multiset(YearsOf(awards, p))[y] == multiset(awards)[(p, y)]
  {
    if |awards| > 0 {
      var last := awards[|awards| - 1];
      YearsOfCounts(awards[..|awards| - 1], p);
      assert awards == awards[..|awards| - 1] + [last];
    }
  }

  /** A name that is not a key has no years. */
  lemma {:induction false} YearsOfNonWinner(awards: seq<Award>, p: string)
    requires p !in Producers(awards)
    ensures YearsOf(awards, p) == []
  {
    if |awards| > 0 {
      YearsOfNonWinner(awards[..|awards| - 1], p);
    }
  }

  /** Index of the first award won by `p` (`|awards|` when there is none). */
  function FirstIndex(awards: seq<Award>, p: string): (k: nat)
    ensures k <= |awards|
    ensures k < |awards| ==> awards[k].0 == p
    ensures forall j :: 0 <= j < k ==> awards[j].0 != p
  {
    if |awards| == 0 then 0
    else if awards[0].0 == p then 0
    else 1 + FirstIndex(awards[1..], p)
  }

  /** The producer order is the order of first appearance in the input. */
  lemma {:induction false} ProducersInFirstAppearanceOrder(awards: seq<Award>, i: int, j: int)
    requires 0 <= i < j < |Producers(awards)|
    ensures FirstIndex(awards, Producers(awards)[i]) < FirstIndex(awards, Producers(awards)[j])
  {
    var n := |awards|;
    var front := awards[..n - 1];
    var ps := Producers(front);
    var p := awards[n - 1].0;
    ProducersAreTheWinners(front);
    var a, b := Producers(awards)[i], Producers(awards)[j];
    FirstIndexOfPrefix(awards, a);
    if p in ps {
      ProducersInFirstAppearanceOrder(front, i, j);
      FirstIndexOfPrefix(awards, b);
    } else if j < |ps| {
      ProducersInFirstAppearanceOrder(front, i, j);
      FirstIndexOfPrefix(awards, b);
    } else {
      assert b == p;
      assert FirstIndex(awards, b) == n - 1;
    }
  }

  /** A producer already present before the last award keeps its first index. */
  lemma FirstIndexOfPrefix(awards: seq<Award>, p: string)
    requires |awards| > 0
    requires Appears(awards[..|awards| - 1], p)
    ensures FirstIndex(awards, p) == FirstIndex(awards[..|awards| - 1], p)
  {
    var front := awards[..|awards| - 1];
    var k :| 0 <= k < |front| && front[k].0 == p;
    var f := FirstIndex(front, p);
    assert f <= k;
    assert awards[f] == front[f];
    var g := FirstIndex(awards, p);
    assert g <= f;
    assert front[g] == awards[g];
  }

  /** One more award extends the key order only for a new producer. */
  lemma ProducersSnoc(awards: seq<Award>, a: Award)
    ensures Producers(awards + [a]) == if a.0 in Producers(awards) then Producers(awards) else Producers(awards) + [a.0]
  {
    assert (awards + [a])[..|awards|] == awards;
  }

  /** One more award appends its year to its own producer's list only. */
  lemma YearsOfSnoc(awards: seq<Award>, a: Award, p: string)
    ensures YearsOf(awards + [a], p) == YearsOf(awards, p) + (if a.0 == p then [a.1] else [])
  {
    assert (awards + [a])[..|awards|] == awards;
  }

  lemma PrefixSnoc<T>(s: seq<T>, i: int)
    requires 0 <= i < |s|
    ensures s[..i + 1] == s[..i] + [s[i]]
  {
  }

  /** `order` and `groups` are the dict's keys and values after reading `seen`. */
  ghost predicate GroupedAs(seen: seq<Award>, order: seq<string>, groups: map<string, seq<int>>) {
    && order == Producers(seen)
    && (forall p :: p in groups <==> p in order)
    && (forall p :: p in groups ==> groups[p] == YearsOf(seen, p))
  }

  /** One loop iteration keeps the dict in step with the awards read so far. */
  lemma GroupStep(seen: seq<Award>, a: Award, order: seq<string>, groups: map<string, seq<int>>)
    requires GroupedAs(seen, order, groups)
    ensures GroupedAs(seen + [a],
                      if a.0 in groups then order else order + [a.0],
                      groups[a.0 := (if a.0 in groups then groups[a.0] else []) + [a.1]])
  {
    ProducersSnoc(seen, a);
    if a.0 !in groups {
      YearsOfNonWinner(seen, a.0);
    }
    forall q
      ensures YearsOf(seen + [a], q) == YearsOf(seen, q) + (if a.0 == q then [a.1] else [])
    {
      YearsOfSnoc(seen, a, q);
    }
  }

  /** The dictionary-building loop: producer order plus each producer's years. */
  method GroupByProducer(awards: seq<Award>) returns (order: seq<string>, groups: map<string, seq<int>>)
    ensures order == Producers(awards)
    ensures forall p :: p in groups <==> p in order
    ensures forall p :: p in groups ==> groups[p] == YearsOf(awards, p)
  {
    order := [];
    groups := map[];
    var i := 0;
    while i < |awards|
      invariant 0 <= i <= |awards|
      invariant GroupedAs(awards[..i], order, groups)
    {
      var a := awards[i];
      var p, y := a.0, a.1;
      PrefixSnoc(awards, i);
      GroupStep(awards[..i], a, order, groups);
      if p !in groups {
        order := order + [p];
        groups := groups[p := []];
      }
      groups := groups[p := groups[p] + [y]];
      i := i + 1;
    }
    assert awards[..i] == awards;
  }
}
