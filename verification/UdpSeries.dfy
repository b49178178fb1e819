/** Conservation of the per-second UDP series: what the samples of a run add up to. */
module UdpSeries {
  import opened Series
  import opened UdpTrace
  import opened UdpReceiver

  /** The turns since the last tick. */
  function AfterLastTick(events: seq<Event>): seq<Event> {
    if |events| == 0 then []
    else
      var e := events[|events| - 1];
      if e.Tick? then [] else AfterLastTick(events[..|events| - 1]) + [e]
  }

  ghost function BytesSeen(w: nat, events: seq<Event>): nat {
    TotalLen(InWindow(w, Arrivals(events)))
  }

  ghost function LossSeen(w: nat, events: seq<Event>): nat {
    ReportedLost(InWindow(w, Arrivals(events)))
  }

  lemma ArrivalsSnoc(events: seq<Event>, e: Event)
    ensures Arrivals(events + [e]) == Arrivals(events) + Arrivals([e])
  {
    assert (events + [e])[..|events|] == events;
    assert [e][..0] == [];
  }

  lemma BytesSeenSnoc(w: nat, events: seq<Event>, e: Event)
    ensures BytesSeen(w, events + [e]) == BytesSeen(w, events) + BytesSeen(w, [e])
  {
    hide Arrivals, InWindow, TotalLen;
    ArrivalsSnoc(events, e);
    InWindowConcat(w, Arrivals(events), Arrivals([e]));
    TotalLenConcat(InWindow(w, Arrivals(events)), InWindow(w, Arrivals([e])));
  }

  lemma BytesOfSnoc(ss: seq<Snapshot>, s: Snapshot)
    ensures BytesOf(ss + [s]) == BytesOf(ss) + [s.bytes]
    ensures LostOf(ss + [s]) == LostOf(ss) + [s.lost]
  {
  }

  lemma {:induction false} BytesAcrossTicks(w: nat, events: seq<Event>)
    ensures BytesSeen(w, events) == Last(0, BytesOf(Readouts(w, events))) + BytesSeen(w, AfterLastTick(events))
    ensures NonDecreasing(0, BytesOf(Readouts(w, events)))
  {
    hide BytesSeen, BytesOf, SnapshotOf;
    if |events| == 0 {
      EmptyReadout(w);
    } else {
      var front, e := events[..|events| - 1], events[|events| - 1];
      BytesAcrossTicks(w, front);
      assert events == front + [e];
      BytesSeenSnoc(w, front, e);
      if e.Tick? {
        BytesOfSnoc(Readouts(w, front), SnapshotOf(w, Arrivals(front)));
        TickIsSilent(w, front, e.nowNs);
      } else {
        BytesSeenSnoc(w, AfterLastTick(front), e);
      }
    }
  }

  lemma TickIsSilent(w: nat, front: seq<Event>, nowNs: nat)
    ensures BytesSeen(w, [Tick(nowNs)]) == 0 && BytesSeen(w, []) == 0
    ensures SnapshotOf(w, Arrivals(front)).bytes == BytesSeen(w, front)
    ensures SnapshotOf(w, Arrivals(front)).lost == LossSeen(w, front)
  {
    assert Arrivals([Tick(nowNs)]) == Arrivals([]) == [];
  }

  function SampleBytes(samples: seq<Sample>): (r: seq<nat>)
    ensures |r| == |samples|
  {
    seq(|samples|, i requires 0 <= i < |samples| => samples[i].bytes)
  }

  function SampleLosses(samples: seq<Sample>): (r: seq<nat>)
    ensures |r| == |samples|
  {
    seq(|samples|, i requires 0 <= i < |samples| => samples[i].packetsLost)
  }

  lemma SamplesAsIntervals(samples: seq<Sample>, readouts: seq<Snapshot>, times: seq<nat>)
    requires SamplesOf(samples, readouts, times)
    ensures SampleBytes(samples) == Intervals(0, BytesOf(readouts))
    ensures SampleLosses(samples) == Intervals(0, LostOf(readouts))
  {
    hide Intervals, BytesOf, LostOf;
    forall i | 0 <= i < |samples|
      ensures SampleBytes(samples)[i] == Intervals(0, BytesOf(readouts))[i]
      ensures SampleLosses(samples)[i] == Intervals(0, LostOf(readouts))[i]
    {
      assert SampleAt(samples, Intervals(0, BytesOf(readouts)), Intervals(0, LostOf(readouts)), readouts, times, i);
    }
  }

  /** No byte goes missing from the series: the samples and what arrived after the
      last tick add up to the final figure. */
  lemma BytesAreConserved(w: nat, events: seq<Event>, r: TestResult)
    requires ResultOf(r, w, Arrivals(events)) && SamplesOf(r.samples, Readouts(w, events), TickTimes(events))
    ensures Sum(SampleBytes(r.samples)) + BytesSeen(w, AfterLastTick(events)) == r.bytes
  {
    hide Intervals, BytesOf, Readouts, AfterLastTick;
    BytesAcrossTicks(w, events);
    SamplesAsIntervals(r.samples, Readouts(w, events), TickTimes(events));
    IntervalsAddUp(0, BytesOf(Readouts(w, events)));
  }

  /** The loss series overshoots the running loss at the last tick by exactly the
      amount the running loss fell between ticks. */
  lemma LossSeriesOvershoot(w: nat, events: seq<Event>, samples: seq<Sample>)
    requires SamplesOf(samples, Readouts(w, events), TickTimes(events))
    ensures
      var running := LostOf(Readouts(w, events));
      && Sum(SampleLosses(samples)) == Last(0, running) + Drops(0, running)
      && (Sum(SampleLosses(samples)) == Last(0, running) <==> NonDecreasing(0, running))
  {
    hide Intervals, LostOf, Readouts;
    SamplesAsIntervals(samples, Readouts(w, events), TickTimes(events));
    SumOfIntervals(0, LostOf(Readouts(w, events)));
    IntervalsAddUp(0, LostOf(Readouts(w, events)));
  }

  lemma {:induction false} InWindowKeepsOrder(w: nat, tr: seq<Arrival>)
    requires Increasing(tr)
    ensures Increasing(InWindow(w, tr))
  {
    if |tr| > 0 {
      var front, p := tr[..|tr| - 1], tr[|tr| - 1];
      InWindowKeepsOrder(w, front);
      InWindowMembers(w, front);
      var r := InWindow(w, front);
      forall i | 0 <= i < |r|
        ensures r[i].seqNo < p.seqNo
      {
        assert r[i] in front;
        var j :| 0 <= j < |front| && front[j] == r[i];
        assert tr[j] == r[i];
      }
    }
  }

  lemma LossGrowsByOne(w: nat, events: seq<Event>, e: Event)
    requires Increasing(Arrivals(events + [e])) && !SpansAll(InWindow(w, Arrivals(events + [e])))
    ensures Increasing(Arrivals(events)) && !SpansAll(InWindow(w, Arrivals(events)))
    ensures LossSeen(w, events) <= LossSeen(w, events + [e])
  {
    hide Arrivals, InWindow, ReportedLost;
    ArrivalsSnoc(events, e);
    var a, b := Arrivals(events), Arrivals([e]);
    InWindowConcat(w, a, b);
    var x, y := InWindow(w, a), InWindow(w, b);
    assert (a + b)[..|a|] == a;
    assert (x + y)[..|x|] == x;
    PrefixIncreasing(a + b, |a|);
    PrefixSpansLess(x + y, |x|);
    InWindowKeepsOrder(w, a + b);
    RunningLossGrows(x + y, |x|);
  }

  lemma PrefixIncreasing(tr: seq<Arrival>, m: nat)
    requires Increasing(tr) && m <= |tr|
    ensures Increasing(tr[..m])
  {
  }

  lemma {:induction false} RunningLossNeverFalls(w: nat, events: seq<Event>)
    requires Increasing(Arrivals(events)) && !SpansAll(InWindow(w, Arrivals(events)))
    ensures NonDecreasing(0, LostOf(Readouts(w, events)))
    ensures Last(0, LostOf(Readouts(w, events))) <= LossSeen(w, events)
  {
    hide LostOf, SnapshotOf, LossSeen;
    if |events| > 0 {
      var front, e := events[..|events| - 1], events[|events| - 1];
      assert events == front + [e];
      LossGrowsByOne(w, front, e);
      RunningLossNeverFalls(w, front);
      if e.Tick? {
        TickIsSilent(w, front, e.nowNs);
        BytesOfSnoc(Readouts(w, front), SnapshotOf(w, Arrivals(front)));
      }
    }
  }

  /** The turns before the last tick. */
  function BeforeLastTick(events: seq<Event>): seq<Event> {
    if |events| == 0 then []
    else if events[|events| - 1].Tick? then events[..|events| - 1]
    else BeforeLastTick(events[..|events| - 1])
  }

  lemma {:induction false} LastTick(w: nat, events: seq<Event>)
    ensures
      var before := BeforeLastTick(events);
      && (Increasing(Arrivals(events)) ==> Increasing(Arrivals(before)))
      && Readouts(w, events) ==
        (if Readouts(w, events) == [] then [] else Readouts(w, before) + [SnapshotOf(w, Arrivals(before))])
      && (Readouts(w, events) == [] ==> before == [])
  {
    hide SnapshotOf, Increasing;
    if |events| > 0 {
      var front, e := events[..|events| - 1], events[|events| - 1];
      assert events == front + [e];
      LastTick(w, front);
      ArrivalsSnoc(front, e);
      assert (Arrivals(front) + Arrivals([e]))[..|Arrivals(front)|] == Arrivals(front);
      if Increasing(Arrivals(events)) {
        PrefixIncreasing(Arrivals(events), |Arrivals(front)|);
      }
    }
  }

  lemma RunningLossBeforeWrap(w: nat, events: seq<Event>)
    requires Increasing(Arrivals(events)) && !SpansAll(InWindow(w, Arrivals(BeforeLastTick(events))))
    ensures NonDecreasing(0, LostOf(Readouts(w, events)))
  {
    hide LostOf, SnapshotOf, Arrivals, Readouts, BeforeLastTick, InWindow, SpansAll, Increasing;
    var before := BeforeLastTick(events);
    LastTick(w, events);
    NoLosses();
    if Readouts(w, events) != [] {
      RunningLossNeverFalls(w, before);
      TickIsSilent(w, before, 0);
      BytesOfSnoc(Readouts(w, before), SnapshotOf(w, Arrivals(before)));
    }
  }

  lemma NoLosses()
    ensures LostOf([]) == []
  {
  }

  lemma RunningLossAfterWrap(w: nat, events: seq<Event>)
    requires SpansAll(InWindow(w, Arrivals(BeforeLastTick(events))))
    ensures Last(0, LostOf(Readouts(w, events))) == 0
  {
    hide LostOf, SnapshotOf, Arrivals, Readouts, BeforeLastTick, InWindow, SpansAll;
    var before := BeforeLastTick(events);
    LastTick(w, events);
    NoLosses();
    if Readouts(w, events) != [] {
      TickIsSilent(w, before, 0);
      BytesOfSnoc(Readouts(w, before), SnapshotOf(w, Arrivals(before)));
      SpansAllLosesNothing(InWindow(w, Arrivals(before)));
    }
  }

  /** When datagrams arrive in order, the per-second losses add up to the running loss
      at the last tick exactly when the span had not wrapped by then, or no tick ever
      showed a loss. */
  lemma InOrderLossSeries(w: nat, events: seq<Event>, samples: seq<Sample>)
    requires SamplesOf(samples, Readouts(w, events), TickTimes(events)) && Increasing(Arrivals(events))
    ensures
      var running := LostOf(Readouts(w, events));
      Sum(SampleLosses(samples)) == Last(0, running)
      <==> !SpansAll(InWindow(w, Arrivals(BeforeLastTick(events)))) || AllZero(running)
  {
    hide LostOf, Readouts, Arrivals, SamplesOf, BeforeLastTick, InWindow, SpansAll, Increasing;
    LossSeriesOvershoot(w, events, samples);
    if SpansAll(InWindow(w, Arrivals(BeforeLastTick(events)))) {
      RunningLossAfterWrap(w, events);
      FlatIffZero(LostOf(Readouts(w, events)));
    } else {
      RunningLossBeforeWrap(w, events);
    }
  }
}
