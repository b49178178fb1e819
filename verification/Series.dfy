/** Interval accounting shared by the three samplers (UDP, TCP, file): each tick
    records the saturating difference between a running total and the previous one. */
module Series {

  function SatSub(a: nat, b: nat): nat {
    if a >= b then a - b else 0
  }

  const NS_PER_SEC := 1000000000.0

  lemma QuotientTimes(x: real, y: real)
    requires y > 0.0
    ensures x / y * y == x
  {
  }

  /** Amount per second over a window of `ns` nanoseconds; zero over an empty one. */
  function Rate(amount: nat, ns: nat): (r: real)
    ensures ns > 0 ==> r * ns as real == amount as real * 1000000000.0
    ensures ns == 0 ==> r == 0.0
  {
    if ns == 0 then 0.0
    else
      QuotientTimes(amount as real * NS_PER_SEC, ns as real);
      amount as real * NS_PER_SEC / ns as real
  }

  /** `bits` and `bytes` are what `amount` bytes in `ns` nanoseconds come to per second;
      zero over an empty window. */
  ghost predicate RatesOf(bits: real, bytes: real, amount: nat, ns: nat) {
    && (ns > 0 ==>
          && bits * ns as real == 8.0 * amount as real * 1000000000.0
          && bytes * ns as real == amount as real * 1000000000.0)
    && (ns == 0 ==> bits == 0.0 && bytes == 0.0)
  }

  lemma RatesAre(amount: nat, ns: nat)
    ensures RatesOf(Rate(8 * amount, ns), Rate(amount, ns), amount, ns)
  {
    assert (8 * amount) as real == 8.0 * amount as real;
  }

  function Sum(xs: seq<nat>): nat {
    if |xs| == 0 then 0 else xs[0] + Sum(xs[1..])
  }

  function Last(base: nat, totals: seq<nat>): nat {
    if |totals| == 0 then base else totals[|totals| - 1]
  }

  /** The interval values recorded for running totals that start from `base`. */
  function Intervals(base: nat, totals: seq<nat>): (r: seq<nat>)
    ensures |r| == |totals|
    decreases |totals|
  {
    if |totals| == 0 then [] else [SatSub(totals[0], base)] + Intervals(totals[0], totals[1..])
  }

  /** How much the totals fall, summed over the ticks at which they fall. */
  function Drops(base: nat, totals: seq<nat>): nat
    decreases |totals|
  {
    if |totals| == 0 then 0 else SatSub(base, totals[0]) + Drops(totals[0], totals[1..])
  }

  ghost predicate NonDecreasing(base: nat, totals: seq<nat>) {
    (|totals| > 0 ==> base <= totals[0])
    && forall i :: 0 < i < |totals| ==> totals[i - 1] <= totals[i]
  }

  /** Nothing is lost between ticks except where saturation clips a fall. */
  lemma {:induction false} SumOfIntervals(base: nat, totals: seq<nat>)
    ensures base + Sum(Intervals(base, totals)) == Last(base, totals) + Drops(base, totals)
    decreases |totals|
  {
    if |totals| > 0 {
      SumOfIntervals(totals[0], totals[1..]);
      assert Intervals(base, totals)[1..] == Intervals(totals[0], totals[1..]);
    }
  }

  lemma {:induction false} NoDrops(base: nat, totals: seq<nat>)
    ensures Drops(base, totals) == 0 <==> NonDecreasing(base, totals)
    decreases |totals|
  {
    if |totals| > 0 {
      NoDrops(totals[0], totals[1..]);
      var t := totals[1..];
      if NonDecreasing(base, totals) {
        assert forall i :: 0 < i < |t| ==> t[i - 1] == totals[i] && t[i] == totals[i + 1];
      }
      if Drops(base, totals) == 0 {
        forall i | 0 < i < |totals|
          ensures totals[i - 1] <= totals[i]
        {
          assert totals[i] == t[i - 1];
          if i > 1 {
            assert totals[i - 1] == t[i - 2];
          }
        }
      }
    }
  }

  /** The intervals add up to the last total exactly when no total falls. */
  lemma IntervalsAddUp(base: nat, totals: seq<nat>)
    ensures base + Sum(Intervals(base, totals)) >= Last(base, totals)
    ensures base + Sum(Intervals(base, totals)) == Last(base, totals) <==> NonDecreasing(base, totals)
  {
    SumOfIntervals(base, totals);
    NoDrops(base, totals);
  }

  ghost predicate AllZero(totals: seq<nat>) {
    forall i :: 0 <= i < |totals| ==> totals[i] == 0
  }

  lemma {:induction false} AtMostLast(base: nat, totals: seq<nat>, i: nat)
    requires NonDecreasing(base, totals) && i < |totals|
    ensures totals[i] <= Last(base, totals)
    decreases |totals| - i
  {
    if i + 1 < |totals| {
      AtMostLast(base, totals, i + 1);
      assert totals[i + 1 - 1] <= totals[i + 1];
    }
  }

  /** Totals that end at zero never fell exactly when they were zero throughout. */
  lemma FlatIffZero(totals: seq<nat>)
    requires Last(0, totals) == 0
    ensures NonDecreasing(0, totals) <==> AllZero(totals)
  {
    if NonDecreasing(0, totals) {
      forall i | 0 <= i < |totals|
        ensures totals[i] == 0
      {
        AtMostLast(0, totals, i);
      }
    }
  }

  lemma {:induction false} IntervalsSnoc(base: nat, totals: seq<nat>, t: nat)
    ensures Intervals(base, totals + [t]) == Intervals(base, totals) + [SatSub(t, Last(base, totals))]
    decreases |totals|
  {
    if |totals| == 0 {
      assert totals + [t] == [t];
      assert [t][1..] == [];
    } else {
      IntervalsSnoc(totals[0], totals[1..], t);
      assert (totals + [t])[1..] == totals[1..] + [t];
      assert (totals + [t])[0] == totals[0];
    }
  }

  lemma {:induction false} SumSnoc(xs: seq<nat>, x: nat)
    ensures Sum(xs + [x]) == Sum(xs) + x
  {
    if |xs| == 0 {
      assert xs + [x] == [x];
    } else {
      SumSnoc(xs[1..], x);
      assert (xs + [x])[1..] == xs[1..] + [x];
    }
  }
}
