/** The receiving side of src/modes/udp.rs: a fixed-size accumulator and the event
    loop around it, both tied to the definitions over the whole trace. */
module UdpReceiver {
  import opened Bytes
  import opened Proto
  import opened Datagram
  import opened UdpTrace
  import opened Series

  datatype Snapshot = Snapshot(bytes: nat, lost: nat, jitterMs: real)

  datatype Sample = Sample(tNs: nat, bytes: nat, bitsPerSec: real, packetsLost: nat, jitterMs: real)

  datatype TestResult = TestResult(
    bytes: nat,
    durationNs: nat,
    bitsPerSec: real,
    bytesPerSec: real,
    packetsExpected: nat,
    packetsReceived: nat,
    packetsLost: nat,
    lossRatio: real,
    jitterMs: real,
    samples: seq<Sample>)

  /** The readout that a trace calls for under warm-up threshold w. */
  ghost function SnapshotOf(w: nat, tr: seq<Arrival>): Snapshot {
    var win := InWindow(w, tr);
    Snapshot(TotalLen(win), ReportedLost(win), Jitter(Deltas(win)) / 1000000.0)
  }

  ghost predicate ResultOf(r: TestResult, w: nat, tr: seq<Arrival>) {
    var win := InWindow(w, tr);
    && r.bytes == TotalLen(win)
    && r.packetsExpected == ReportedExpected(win)
    && r.packetsReceived == |win|
    && r.packetsLost == ReportedLost(win)
    && r.lossRatio ==
      (if ReportedExpected(win) > 0 then ReportedLost(win) as real / ReportedExpected(win) as real else 0.0)
    && r.jitterMs == Jitter(Deltas(win)) / 1000000.0
  }

  /** The rates of a result are those of its bytes over its window. */
  ghost predicate RatesFit(r: TestResult) {
    RatesOf(r.bitsPerSec, r.bytesPerSec, r.bytes, r.durationNs)
  }

  class LossJitter {
    const warmupPackets: nat
    var bytes: nat
    var received: nat
    var minSeq: Option<u64>
    var maxSeq: u64
    var prevTransit: Option<i64>
    var jitterNs: real
    /** Every datagram observed so far. */
    ghost var trace: seq<Arrival>

    /** The fields are what the definitions over the whole trace call for. */
    ghost predicate Valid()
      reads this
    {
      var win := InWindow(warmupPackets, trace);
      var s := SeqNos(win);
      && bytes == TotalLen(win)
      && received == |win|
      && (win == [] <==> s == {})
      && minSeq == (if s == {} then None else Some(Least(s)))
      && maxSeq == (if s == {} then 0 else Greatest(s))
      && prevTransit == (if win == [] then None else Some(Transit(win[|win| - 1])))
      && jitterNs == Jitter(Deltas(win))
    }

    constructor (warmupPackets: nat)
      ensures Valid() && trace == [] && this.warmupPackets == warmupPackets
    {
      this.warmupPackets := warmupPackets;
      bytes, received, minSeq, maxSeq, prevTransit, jitterNs := 0, 0, None, 0, None, 0.0;
      trace := [];
    }

    method Observe(seqNo: u64, sendNs: u64, recvNs: u64, n: nat)
      requires Valid()
      modifies this
      ensures Valid() && trace == old(trace) + [Arrival(seqNo, sendNs, recvNs, n)]
    {
      hide InWindow, TotalLen, SeqNos, Least, Greatest, Deltas, Jitter, TransitNs, AbsDelta;
      ghost var win := InWindow(warmupPackets, trace);
      ghost var p := Arrival(seqNo, sendNs, recvNs, n);
      InWindowSnoc(warmupPackets, trace, p);
      trace := trace + [p];
      if seqNo < warmupPackets {
        return;
      }
      TotalLenSnoc(win, p);
      SeqNosSnoc(win, p);
      LeastInsert(SeqNos(win), seqNo);
      GreatestInsert(SeqNos(win), seqNo);
      DeltasSnoc(win, p);
      bytes := bytes + n;
      received := received + 1;
      minSeq := Some(if minSeq.None? || seqNo <= minSeq.value then seqNo else minSeq.value);
      maxSeq := if seqNo >= maxSeq then seqNo else maxSeq;
      var transit := TransitNs(sendNs, recvNs);
      if prevTransit.Some? {
        var d := AbsDelta(prevTransit.value, transit) as real;
        JitterRecurrence(Deltas(win), d);
        jitterNs := jitterNs + (d - jitterNs) * (1.0 / 16.0);
      }
      prevTransit := Some(transit);
    }

    method Snap() returns (s: Snapshot)
      requires Valid()
      ensures s == SnapshotOf(warmupPackets, trace)
    {
      hide InWindow, TotalLen, SeqNos, Least, Greatest, Deltas, Jitter;
      var expected := if minSeq.Some? then (maxSeq - minSeq.value + 1) % TWO64 else 0;
      s := Snapshot(bytes, SatSub(expected, received), jitterNs / 1000000.0);
    }

    /** `durationNs` is the window that the event loop measured. */
    method IntoResult(durationNs: nat) returns (r: TestResult)
      requires Valid()
      ensures ResultOf(r, warmupPackets, trace)
      ensures r.durationNs == durationNs && r.samples == [] && RatesFit(r)
    {
      hide InWindow, TotalLen, SeqNos, Least, Greatest, Deltas, Jitter;
      var expected := if minSeq.Some? then (maxSeq - minSeq.value + 1) % TWO64 else 0;
      var lost := SatSub(expected, received);
      var lossRatio := if expected > 0 then lost as real / expected as real else 0.0;
      RatesAre(bytes, durationNs);
      r := TestResult(bytes, durationNs, Rate(8 * bytes, durationNs), Rate(bytes, durationNs), expected, received, lost,
        lossRatio, jitterNs / 1000000.0, []);
    }
  }

  lemma RatesIgnoreSamples(r: TestResult, samples: seq<Sample>)
    requires RatesFit(r)
    ensures RatesFit(r.(samples := samples))
  {
  }

  // ---- The warm-up filter ---------------------------------------------------------

  /** A receiver with threshold w ends in the very state of one without a threshold that
      was only given the datagrams numbered w and up: the threshold acts as a filter on
      every measured field, the jitter included. */
  lemma WarmupIsAFilter(a: LossJitter, b: LossJitter)
    requires a.Valid() && b.Valid()
    requires b.warmupPackets == 0 && b.trace == InWindow(a.warmupPackets, a.trace)
    ensures a.bytes == b.bytes && a.received == b.received
    ensures a.minSeq == b.minSeq && a.maxSeq == b.maxSeq
    ensures a.prevTransit == b.prevTransit && a.jitterNs == b.jitterNs
  {
    hide InWindow, TotalLen, SeqNos, Least, Greatest, Deltas, Jitter;
    InWindowTwice(a.warmupPackets, a.trace);
  }

  /** So do the two results, and every readout on the way. */
  lemma ResultsOfAFilter(w: nat, tr: seq<Arrival>, r: TestResult, q: TestResult)
    requires ResultOf(r, w, tr) && ResultOf(q, 0, InWindow(w, tr))
    ensures r.bytes == q.bytes && r.packetsExpected == q.packetsExpected
    ensures r.packetsReceived == q.packetsReceived && r.packetsLost == q.packetsLost
    ensures r.lossRatio == q.lossRatio && r.jitterMs == q.jitterMs
    ensures SnapshotOf(w, tr) == SnapshotOf(0, InWindow(w, tr))
  {
    hide InWindow, TotalLen, SeqNos, Deltas, Jitter, ReportedExpected, ReportedLost;
    InWindowTwice(w, tr);
  }

  /** A readout shows the figures that a result at that point would. */
  lemma ReadoutIsResultSoFar(w: nat, tr: seq<Arrival>, r: TestResult)
    requires ResultOf(r, w, tr)
    ensures SnapshotOf(w, tr) == Snapshot(r.bytes, r.packetsLost, r.jitterMs)
  {
  }

  // ---- Known answers --------------------------------------------------------------

  lemma {:induction false} KnownWindow(tr: seq<Arrival>)
    ensures InWindow(0, tr) == tr
  {
    if |tr| > 0 {
      KnownWindow(tr[..|tr| - 1]);
      assert tr == tr[..|tr| - 1] + [tr[|tr| - 1]];
    }
  }

  /** Datagrams of one length make so many bytes. */
  lemma {:induction false} KnownBytes(tr: seq<Arrival>, len: nat)
    requires forall p :: p in tr ==> p.len == len
    ensures TotalLen(tr) == |tr| * len
  {
    if |tr| > 0 {
      KnownBytes(tr[..|tr| - 1], len);
      assert tr[|tr| - 1] in tr;
      assert |tr| * len == (|tr| - 1) * len + len;
    }
  }

  lemma ZeroBand(j: real, d: real)
    requires 0.0 <= j <= (1.0 - d) * 0.0
    ensures j == 0.0
  {
  }

  /** In-order datagrams of one length and one transit time: every number skipped is lost,
      and there is no jitter. */
  lemma LockstepRun(r: TestResult, tr: seq<Arrival>, len: nat, transit: int)
    requires ResultOf(r, 0, tr) && |tr| > 0 && Increasing(tr) && !SpansAll(tr)
    requires forall p :: p in tr ==> p.len == len && p.recvNs - p.sendNs == transit
    ensures r.packetsExpected == tr[|tr| - 1].seqNo - tr[0].seqNo + 1 && r.packetsReceived == |tr|
    ensures r.packetsLost == r.packetsExpected - |tr| && r.bytes == |tr| * len
    ensures r.lossRatio == r.packetsLost as real / r.packetsExpected as real && r.jitterMs == 0.0
  {
    hide InWindow, TotalLen, ReportedLost, Deltas, Jitter, Expected, Decay, SeqNos, SpansAll, Increasing;
    KnownWindow(tr);
    SpanExact(tr);
    IncreasingEnds(tr);
    IncreasingLost(tr);
    KnownBytes(tr, len);
    JitterOfBoundedDelay(tr, transit, 0);
    ZeroBand(Jitter(Deltas(tr)), Decay(|Deltas(tr)|));
  }

  /** The gap of the repository's own test: 0, 1, 2, 5, 6 in lockstep lose two of seven. */
  lemma KnownGap(r: TestResult, tr: seq<Arrival>)
    requires ResultOf(r, 0, tr) && |tr| == 5
    requires tr[0] == Arrival(0, 0, 500, 100) && tr[1] == Arrival(1, 1000, 1500, 100)
    requires tr[2] == Arrival(2, 2000, 2500, 100) && tr[3] == Arrival(5, 5000, 5500, 100)
    requires tr[4] == Arrival(6, 6000, 6500, 100)
    ensures r.packetsExpected == 7 && r.packetsReceived == 5 && r.packetsLost == 2 && r.bytes == 500
    ensures r.jitterMs == 0.0
  {
    hide ResultOf;
    forall p | p in tr
      ensures p.len == 100 && p.recvNs - p.sendNs == 500 && p.seqNo <= 6
    {
      var i :| 0 <= i < 5 && tr[i] == p;
    }
    assert Increasing(tr) && !SpansAll(tr);
    LockstepRun(r, tr, 100, 500);
  }

  /** Transit times of 0, 16 and 0 ms: 1 ms after the second arrival and 1.9375 ms after
      the third. */
  lemma KnownJitter(r: TestResult, q: TestResult)
    requires ResultOf(r, 0, [Arrival(0, 0, 0, 100), Arrival(1, 0, 16000000, 100)])
    requires ResultOf(q, 0, [Arrival(0, 0, 0, 100), Arrival(1, 0, 16000000, 100), Arrival(2, 0, 0, 100)])
    ensures r.jitterMs == 1.0 && q.jitterMs == 1.9375
  {
    var a, b, c := Arrival(0, 0, 0, 100), Arrival(1, 0, 16000000, 100), Arrival(2, 0, 0, 100);
    hide InWindow, TotalLen, ReportedLost, ReportedExpected, Jitter;
    KnownWindow([a, b]);
    KnownWindow([a, b, c]);
    NoWrapBelow2To62(a, b);
    NoWrapBelow2To62(b, c);
    hide AbsDelta, Transit;
    assert Deltas([a, b]) == [] + [16000000.0];
    assert Deltas([a, b, c]) == [16000000.0] + [16000000.0];
    NoJitter();
    JitterRecurrence([], 16000000.0);
    JitterRecurrence([16000000.0], 16000000.0);
  }

  lemma NoJitter()
    ensures Jitter([]) == 0.0
  {
  }

  // ---- The event loop -------------------------------------------------------------

  /** One turn of the receive loop: the one-second ticker fired, or a datagram came.
      Clock readings count from the start of the loop. */
  datatype Event = Tick(nowNs: nat) | Datagram(payload: seq<byte>, recvNs: u64, nowNs: nat)

  /** How the loop ends: Stop arrived, or the socket failed. */
  datatype LoopEnd = Stopped(nowNs: nat) | SocketFailed

  /** The datagrams long enough to carry a header, in order. */
  function Arrivals(events: seq<Event>): seq<Arrival> {
    if |events| == 0 then []
    else
      var front := Arrivals(events[..|events| - 1]);
      var e := events[|events| - 1];
      if e.Tick? || Unstamp(e.payload).None? then front
      else
        var h := Unstamp(e.payload).value;
        front + [Arrival(h.0, h.1, e.recvNs, |e.payload|)]
  }

  /** The clock reading at the first in-window datagram, where measuring starts. */
  function FirstInWindow(w: nat, events: seq<Event>): Option<nat> {
    if |events| == 0 then None
    else
      var front := FirstInWindow(w, events[..|events| - 1]);
      var e := events[|events| - 1];
      if front.None? && e.Datagram? && Unstamp(e.payload).Some? && Unstamp(e.payload).value.0 >= w
      then Some(e.nowNs) else front
  }

  ghost predicate InWindowAt(w: nat, events: seq<Event>, k: nat) {
    k < |events| && events[k].Datagram? && Unstamp(events[k].payload).Some? && Unstamp(events[k].payload).value.0 >= w
  }

  /** Measuring starts with the very first datagram of the window. */
  lemma {:induction false} FirstInWindowIs(w: nat, events: seq<Event>)
    ensures FirstInWindow(w, events).None? ==> forall k: nat :: !InWindowAt(w, events, k)
    ensures FirstInWindow(w, events).Some? ==>
      exists k: nat :: InWindowAt(w, events, k) && FirstInWindow(w, events) == Some(events[k].nowNs)
        && forall j: nat :: j < k ==> !InWindowAt(w, events, j)
  {
    if |events| > 0 {
      var front, last := events[..|events| - 1], |events| - 1;
      FirstInWindowIs(w, front);
      hide Unstamp;
      assert forall k: nat :: k < last ==> (InWindowAt(w, events, k) <==> InWindowAt(w, front, k));
      if FirstInWindow(w, front).Some? {
        var k: nat :| InWindowAt(w, front, k) && FirstInWindow(w, front) == Some(front[k].nowNs)
          && forall j: nat :: j < k ==> !InWindowAt(w, front, j);
        assert InWindowAt(w, events, k) && events[k] == front[k];
      } else if InWindowAt(w, events, last) {
        assert FirstInWindow(w, events) == Some(events[last].nowNs);
      }
    }
  }

  /** What the accumulator shows at each tick. */
  ghost function Readouts(w: nat, events: seq<Event>): seq<Snapshot> {
    if |events| == 0 then []
    else
      var front := events[..|events| - 1];
      if events[|events| - 1].Tick? then Readouts(w, front) + [SnapshotOf(w, Arrivals(front))]
      else Readouts(w, front)
  }

  /** The clock at each tick. */
  function TickTimes(events: seq<Event>): seq<nat> {
    if |events| == 0 then []
    else
      var front, e := TickTimes(events[..|events| - 1]), events[|events| - 1];
      if e.Tick? then front + [e.nowNs] else front
  }

  function BytesOf(ss: seq<Snapshot>): (r: seq<nat>)
    ensures |r| == |ss|
  {
    seq(|ss|, i requires 0 <= i < |ss| => ss[i].bytes)
  }

  function LostOf(ss: seq<Snapshot>): (r: seq<nat>)
    ensures |r| == |ss|
  {
    seq(|ss|, i requires 0 <= i < |ss| => ss[i].lost)
  }

  /** What a tick at `nowNs` records when the tick before it was at `lastNs`: the amounts of
      the interval, their rate over it, and the jitter at the tick. */
  ghost predicate SampleFits(s: Sample, bytes: nat, lost: nat, jitterMs: real, nowNs: nat, lastNs: nat) {
    && s.tNs == nowNs && s.bytes == bytes && s.packetsLost == lost && s.jitterMs == jitterMs
    && (nowNs > lastNs ==> s.bitsPerSec * (nowNs - lastNs) as real == 8.0 * bytes as real * 1000000000.0)
    && (nowNs <= lastNs ==> s.bitsPerSec == 0.0)
  }

  /** Sample i is that of the interval between the readouts before and at tick i. */
  ghost predicate SampleAt(
    samples: seq<Sample>, bytes: seq<nat>, lost: seq<nat>, readouts: seq<Snapshot>, times: seq<nat>, i: nat)
    requires i < |samples| == |bytes| == |lost| == |readouts| == |times|
  {
    SampleFits(samples[i], bytes[i], lost[i], readouts[i].jitterMs, times[i], Before(times, i))
  }

  ghost predicate SamplesOf(samples: seq<Sample>, readouts: seq<Snapshot>, times: seq<nat>) {
    && |samples| == |readouts| == |times|
    && forall i :: 0 <= i < |samples| ==>
      SampleAt(samples, Intervals(0, BytesOf(readouts)), Intervals(0, LostOf(readouts)), readouts, times, i)
  }

  /** The tick before tick i, or the start. */
  function Before(times: seq<nat>, i: nat): nat
    requires i < |times|
  {
    if i == 0 then 0 else times[i - 1]
  }

  lemma NoSamples()
    ensures SamplesOf([], [], [])
  {
  }

  lemma SamplesSnoc(
    samples: seq<Sample>, readouts: seq<Snapshot>, times: seq<nat>, s: Sample, cur: Snapshot, nowNs: nat)
    requires SamplesOf(samples, readouts, times)
    requires SampleFits(s, SatSub(cur.bytes, Last(0, BytesOf(readouts))), SatSub(cur.lost, Last(0, LostOf(readouts))),
      cur.jitterMs, nowNs, Last(0, times))
    ensures SamplesOf(samples + [s], readouts + [cur], times + [nowNs])
  {
    assert BytesOf(readouts + [cur]) == BytesOf(readouts) + [cur.bytes];
    assert LostOf(readouts + [cur]) == LostOf(readouts) + [cur.lost];
    hide SampleFits, SampleAt, BytesOf, LostOf, Intervals;
    var xs, ys := BytesOf(readouts), LostOf(readouts);
    IntervalsSnoc(0, xs, cur.bytes);
    IntervalsSnoc(0, ys, cur.lost);
    var x, y := SatSub(cur.bytes, Last(0, xs)), SatSub(cur.lost, Last(0, ys));
    forall i | 0 <= i <= |samples|
      ensures SampleAt(
        samples + [s], Intervals(0, xs) + [x], Intervals(0, ys) + [y], readouts + [cur], times + [nowNs], i)
    {
      SampleAtSnoc(samples, Intervals(0, xs), Intervals(0, ys), readouts, times, i, s, x, y, cur, nowNs);
    }
  }

  lemma SampleAtSnoc(
    samples: seq<Sample>, bytes: seq<nat>, lost: seq<nat>, readouts: seq<Snapshot>, times: seq<nat>, i: nat,
    s: Sample, x: nat, y: nat, cur: Snapshot, nowNs: nat)
    requires i <= |samples| == |bytes| == |lost| == |readouts| == |times|
    requires i < |samples| ==> SampleAt(samples, bytes, lost, readouts, times, i)
    requires SampleFits(s, x, y, cur.jitterMs, nowNs, Last(0, times))
    ensures SampleAt(samples + [s], bytes + [x], lost + [y], readouts + [cur], times + [nowNs], i)
  {
    hide SampleFits;
    assert Before(times + [nowNs], i) == if i < |times| then Before(times, i) else Last(0, times);
  }

  /** The sample of the loop: its rate is the interval's bytes over the interval. */
  function MakeSample(bytes: nat, lost: nat, jitterMs: real, nowNs: nat, lastNs: nat): (s: Sample)
    ensures SampleFits(s, bytes, lost, jitterMs, nowNs, lastNs)
  {
    Sample(nowNs, bytes, Rate(8 * bytes, SatSub(nowNs, lastNs)), lost, jitterMs)
  }

  /** The warm-up threshold of the receiver, in packets (a u64 product). */
  function WarmupPackets(neg: Negotiate): nat {
    var packetBytes := Max(UnwrapOr(neg.packetBytes, 1472), HEADER_LEN);
    var pps := UnwrapOr(neg.bitrateBps, 0) / Max(packetBytes * 8, 1);
    (pps * neg.warmupSecs) % TWO64
  }

  /** What one more turn adds to each account of the events. */
  lemma OneMoreTurn(w: nat, events: seq<Event>, e: Event)
    ensures
      var h := if e.Tick? then None else Unstamp(e.payload);
      && Arrivals(events + [e]) ==
        (if h.None? then Arrivals(events)
         else Arrivals(events) + [Arrival(h.value.0, h.value.1, e.recvNs, |e.payload|)])
      && FirstInWindow(w, events + [e]) ==
        (if FirstInWindow(w, events).None? && h.Some? && h.value.0 >= w then Some(e.nowNs)
         else FirstInWindow(w, events))
      && Readouts(w, events + [e]) ==
        (if e.Tick? then Readouts(w, events) + [SnapshotOf(w, Arrivals(events))] else Readouts(w, events))
      && TickTimes(events + [e]) == (if e.Tick? then TickTimes(events) + [e.nowNs] else TickTimes(events))
  {
    hide SnapshotOf, Unstamp;
    assert (events + [e])[..|events|] == events;
  }

  lemma NoTurns(w: nat)
    ensures Arrivals([]) == [] && FirstInWindow(w, []) == None && Readouts(w, []) == [] && TickTimes([]) == []
  {
  }

  lemma EmptyReadout(w: nat)
    ensures SnapshotOf(w, []) == Snapshot(0, 0, 0.0)
  {
    assert SeqNos([]) == {};
  }

  /** What the loop reports after these turns when Stop arrives at `endNs`. */
  ghost predicate Reports(r: TestResult, w: nat, events: seq<Event>, endNs: nat) {
    && ResultOf(r, w, Arrivals(events)) && RatesFit(r)
    && SamplesOf(r.samples, Readouts(w, events), TickTimes(events))
    && r.durationNs ==
      (var start := FirstInWindow(w, events); if start.None? then 0 else SatSub(endNs, start.value))
  }

  /** A sample carries the time t of its tick, the rate of its own bytes since t', and the
      jitter at the tick. */
  ghost predicate Timed(s: Sample, jitterMs: real, t: nat, t': nat) {
    && s.tNs == t && s.jitterMs == jitterMs
    && if t > t' then s.bitsPerSec * (t - t') as real == 8.0 * s.bytes as real * 1000000000.0
       else s.bitsPerSec == 0.0
  }

  /** Each sample is that of its tick since the tick before it, or since the start. */
  ghost predicate SamplesTimed(samples: seq<Sample>, readouts: seq<Snapshot>, times: seq<nat>) {
    && |samples| == |readouts| == |times|
    && forall i :: 0 <= i < |samples| ==>
      Timed(samples[i], readouts[i].jitterMs, times[i], if i == 0 then 0 else times[i - 1])
  }

  lemma FitsAreTimed(s: Sample, bytes: nat, lost: nat, jitterMs: real, t: nat, t': nat)
    requires SampleFits(s, bytes, lost, jitterMs, t, t')
    ensures Timed(s, jitterMs, t, t')
  {
  }

  lemma SamplesAreTimed(samples: seq<Sample>, readouts: seq<Snapshot>, times: seq<nat>)
    requires SamplesOf(samples, readouts, times)
    ensures SamplesTimed(samples, readouts, times)
  {
    hide Intervals, BytesOf, LostOf, SampleFits, Timed;
    var xs, ys := Intervals(0, BytesOf(readouts)), Intervals(0, LostOf(readouts));
    forall i | 0 <= i < |samples|
      ensures Timed(samples[i], readouts[i].jitterMs, times[i], if i == 0 then 0 else times[i - 1])
    {
      assert SampleAt(samples, xs, ys, readouts, times, i);
      FitsAreTimed(samples[i], xs[i], ys[i], readouts[i].jitterMs, times[i], Before(times, i));
    }
  }

  /** What the loop keeps after these turns. */
  ghost predicate Accounts(w: nat, events: seq<Event>, start: Option<nat>, samples: seq<Sample>, last: Snapshot,
                           lastNs: nat) {
    && start == FirstInWindow(w, events)
    && SamplesOf(samples, Readouts(w, events), TickTimes(events))
    && last.bytes == Last(0, BytesOf(Readouts(w, events))) && last.lost == Last(0, LostOf(Readouts(w, events)))
    && lastNs == Last(0, TickTimes(events))
  }

  lemma NoAccounts(w: nat)
    ensures Accounts(w, [], None, [], SnapshotOf(w, []), 0)
  {
    hide SnapshotOf;
    EmptyReadout(w);
  }

  lemma TickAccounts(w: nat, events: seq<Event>, start: Option<nat>, samples: seq<Sample>, last: Snapshot,
                     lastNs: nat, cur: Snapshot, nowNs: nat, s: Sample)
    requires Accounts(w, events, start, samples, last, lastNs) && cur == SnapshotOf(w, Arrivals(events))
    requires SampleFits(
      s, SatSub(cur.bytes, last.bytes), SatSub(cur.lost, last.lost), cur.jitterMs, nowNs, lastNs)
    ensures Accounts(w, events + [Tick(nowNs)], start, samples + [s], cur, nowNs)
    ensures Arrivals(events + [Tick(nowNs)]) == Arrivals(events)
  {
    hide SnapshotOf, Arrivals, FirstInWindow, Readouts, TickTimes, SampleFits, SamplesOf;
    OneMoreTurn(w, events, Tick(nowNs));
    SamplesSnoc(samples, Readouts(w, events), TickTimes(events), s, cur, nowNs);
    LastReadout(Readouts(w, events), cur);
  }

  lemma LastReadout(readouts: seq<Snapshot>, cur: Snapshot)
    ensures Last(0, BytesOf(readouts + [cur])) == cur.bytes && Last(0, LostOf(readouts + [cur])) == cur.lost
  {
  }

  lemma DatagramAccounts(w: nat, events: seq<Event>, start: Option<nat>, samples: seq<Sample>, last: Snapshot,
                         lastNs: nat, e: Event)
    requires Accounts(w, events, start, samples, last, lastNs) && e.Datagram?
    ensures
      var h := Unstamp(e.payload);
      var start' := if h.Some? && h.value.0 >= w && start.None? then Some(e.nowNs) else start;
      && Accounts(w, events + [e], start', samples, last, lastNs)
      && Arrivals(events + [e]) ==
        if h.None? then Arrivals(events)
        else Arrivals(events) + [Arrival(h.value.0, h.value.1, e.recvNs, |e.payload|)]
  {
    hide SnapshotOf, Arrivals, FirstInWindow, Readouts, TickTimes, SamplesOf, Unstamp;
    OneMoreTurn(w, events, e);
  }

  /** Runs the loop over an arbitrary sequence of turns and either end. */
  method Serve(neg: Negotiate, events: seq<Event>, end: LoopEnd) returns (r: Option<TestResult>)
    ensures r.Some? <==> end.Stopped?
    ensures r.Some? ==> Reports(r.value, WarmupPackets(neg), events, end.nowNs)
    ensures r.Some? ==>
      SamplesTimed(r.value.samples, Readouts(WarmupPackets(neg), events), TickTimes(events))
  {
    hide RatesFit, InWindow, TotalLen, SeqNos, Deltas, Jitter, ReportedLost, Intervals, Unstamp, WarmupPackets;
    hide Arrivals, FirstInWindow, Readouts, TickTimes, SamplesOf, SnapshotOf, SampleFits, SamplesTimed, Accounts;
    var w := WarmupPackets(neg);
    var acc := new LossJitter(w);
    var measureStart: Option<nat> := None;
    var samples: seq<Sample> := [];
    var last := acc.Snap();
    var lastNs := 0;
    NoTurns(w);
    NoAccounts(w);
    assert events[..0] == [];
    for i := 0 to |events|
      invariant fresh(acc) && acc.Valid() && acc.warmupPackets == w
      invariant acc.trace == Arrivals(events[..i])
      invariant Accounts(w, events[..i], measureStart, samples, last, lastNs)
    {
      assert events[..i + 1] == events[..i] + [events[i]];
      match events[i] {
        case Tick(nowNs) =>
          var cur := acc.Snap();
          var s := MakeSample(
            SatSub(cur.bytes, last.bytes), SatSub(cur.lost, last.lost), cur.jitterMs, nowNs, lastNs);
          TickAccounts(w, events[..i], measureStart, samples, last, lastNs, cur, nowNs, s);
          samples := samples + [s];
          last, lastNs := cur, nowNs;
        case Datagram(payload, recvNs, nowNs) =>
          DatagramAccounts(w, events[..i], measureStart, samples, last, lastNs, events[i]);
          var header := Unstamp(payload);
          if header.Some? {
            var (seqNo, sendNs) := header.value;
            if seqNo >= w && measureStart.None? {
              measureStart := Some(nowNs);
            }
            acc.Observe(seqNo, sendNs, recvNs, |payload|);
          }
      }
    }
    assert events[..|events|] == events;
    if end.SocketFailed? {
      return None;
    }
    AccountsHold(w, events, measureStart, samples, last, lastNs);
    var duration := if measureStart.None? then 0 else SatSub(end.nowNs, measureStart.value);
    var result := acc.IntoResult(duration);
    RatesIgnoreSamples(result, samples);
    r := Some(result.(samples := samples));
  }

  lemma AccountsHold(w: nat, events: seq<Event>, start: Option<nat>, samples: seq<Sample>, last: Snapshot,
                     lastNs: nat)
    requires Accounts(w, events, start, samples, last, lastNs)
    ensures start == FirstInWindow(w, events)
    ensures SamplesOf(samples, Readouts(w, events), TickTimes(events))
    ensures SamplesTimed(samples, Readouts(w, events), TickTimes(events))
  {
    hide SamplesOf, SamplesTimed;
    SamplesAreTimed(samples, Readouts(w, events), TickTimes(events));
  }
}
