/** Sender, an arbitrary channel and receiver composed: what the reported loss and
    jitter say about what the channel did. */
module UdpEndToEnd {
  import opened Bytes
  import opened Proto
  import opened Datagram
  import opened UdpTrace
  import opened UdpReceiver
  import opened UdpSender

  /** One thing the receiving side lives through: a second passes, or the channel
      hands over a copy of packet number `packet`, if there is such a packet. */
  datatype Turn = Second(nowNs: nat) | Hand(packet: nat, recvNs: u64, nowNs: nat)

  /** The channel may drop, reorder and duplicate, but only hands over what was sent. */
  function Deliver(sent: seq<seq<byte>>, turns: seq<Turn>): seq<Event> {
    if |turns| == 0 then []
    else
      var front := Deliver(sent, turns[..|turns| - 1]);
      var t := turns[|turns| - 1];
      if t.Second? then front + [Tick(t.nowNs)]
      else if t.packet < |sent| then front + [Event.Datagram(sent[t.packet], t.recvNs, t.nowNs)]
      else front
  }

  /** The arrivals that the turns amount to when n packets of length len were sent. */
  function Handed(n: nat, len: nat, clock: nat -> u64, turns: seq<Turn>): seq<Arrival> {
    if |turns| == 0 then []
    else
      var front := Handed(n, len, clock, turns[..|turns| - 1]);
      var t := turns[|turns| - 1];
      if t.Hand? && t.packet < n then front + [Arrival(t.packet % TWO64, clock(t.packet), t.recvNs, len)]
      else front
  }

  /** The packet numbers that the turns hand over, of n sent. */
  function Packets(n: nat, turns: seq<Turn>): set<int> {
    set t | t in turns && t.Hand? && t.packet < n :: t.packet
  }

  /** Every datagram the channel hands over unstamps to its own number and stamp. */
  lemma {:induction false} DeliveredArrivals(
    sent: seq<seq<byte>>, padding: seq<byte>, clock: nat -> u64, turns: seq<Turn>)
    requires AllStamped(sent, padding, clock)
    ensures Arrivals(Deliver(sent, turns)) == Handed(|sent|, HEADER_LEN + |padding|, clock, turns)
  {
    hide Header, Unstamp;
    if |turns| > 0 {
      var front, t := turns[..|turns| - 1], turns[|turns| - 1];
      DeliveredArrivals(sent, padding, clock, front);
      var events := Deliver(sent, turns);
      if t.Second? || t.packet < |sent| {
        assert events[..|events| - 1] == Deliver(sent, front);
        if t.Hand? {
          assert sent[t.packet] == SentDatagram(padding, clock, t.packet);
          UnstampOfStamped(t.packet % TWO64, clock(t.packet), padding);
        }
      }
    }
  }

  lemma {:induction false} HandedSeqNos(n: nat, len: nat, clock: nat -> u64, turns: seq<Turn>)
    requires n < TWO64
    ensures SeqNos(Handed(n, len, clock, turns)) == Packets(n, turns)
  {
    if |turns| > 0 {
      var front, t := turns[..|turns| - 1], turns[|turns| - 1];
      HandedSeqNos(n, len, clock, front);
      assert turns == front + [t];
      if t.Hand? && t.packet < n {
        SeqNosSnoc(Handed(n, len, clock, front), Arrival(t.packet % TWO64, clock(t.packet), t.recvNs, len));
        assert Packets(n, turns) == Packets(n, front) + {t.packet as int};
      } else {
        assert Packets(n, turns) == Packets(n, front);
      }
    }
  }

  lemma WindowSeqNos(w: nat, tr: seq<Arrival>, n: nat)
    requires forall x :: x in SeqNos(tr) ==> 0 <= x < n
    ensures SeqNos(InWindow(w, tr)) == SeqNos(tr) * RangeSet(w, n)
  {
    hide InWindow;
    InWindowMembers(w, tr);
    forall x
      ensures x in SeqNos(InWindow(w, tr)) <==> x in SeqNos(tr) && w <= x < n
    {
      if x in SeqNos(tr) && w <= x {
        var p :| p in tr && p.seqNo == x;
        assert p in InWindow(w, tr);
      }
    }
  }

  /** What the channel lost of the packets numbered w to n - 1. */
  function Dropped(w: nat, n: nat, seen: set<int>): set<int> {
    RangeSet(w, n) - seen
  }

  lemma SizeOfThree(t: set<int>, a: set<int>, b: set<int>, c: set<int>)
    requires a !! b && (a + b) !! c && t == a + b + c
    ensures |t| == |a| + |b| + |c|
  {
  }

  lemma SplitSet(w: int, lo: int, hi: int, n: int, s: set<int>)
    requires w <= lo <= hi <= n
    requires forall x :: x in s ==> lo <= x < hi
    ensures RangeSet(w, n) - s == RangeSet(w, lo) + (RangeSet(lo, hi) - s) + RangeSet(hi, n)
    ensures RangeSet(w, lo) !! (RangeSet(lo, hi) - s)
    ensures (RangeSet(w, lo) + (RangeSet(lo, hi) - s)) !! RangeSet(hi, n)
  {
    hide RangeSet;
  }

  lemma SplitSizes(w: int, lo: int, hi: int, n: int, s: set<int>)
    requires w <= lo <= hi <= n
    requires forall x :: x in s ==> lo <= x < hi
    ensures |RangeSet(w, n) - s| == |RangeSet(lo, hi) - s| + (lo - w) + (n - hi)
  {
    hide RangeSet;
    RangeSize(w, lo);
    RangeSize(hi, n);
    SplitSet(w, lo, hi, n, s);
    SizeOfThree(RangeSet(w, n) - s, RangeSet(w, lo), RangeSet(lo, hi) - s, RangeSet(hi, n));
  }

  lemma SplitRange(w: nat, n: nat, s: set<int>)
    requires s != {} && s <= RangeSet(w, n)
    ensures w <= Least(s) <= Greatest(s) < n
    ensures |Dropped(w, n, s)| == |Missing(s)| + (Least(s) - w) + (n - 1 - Greatest(s))
  {
    hide Least, Greatest, RangeSet;
    var lo, hi := Least(s), Greatest(s) + 1;
    assert lo in RangeSet(w, n) && hi - 1 in RangeSet(w, n);
    SplitSizes(w, lo, hi, n, s);
  }

  function Positive(x: int): nat {
    if x > 0 then x else 0
  }

  /** Given which packets came out of the channel and how many extra copies: what it
      dropped from the window, less the run dropped before the smallest arrival, the run
      dropped after the largest, and the extra copies, cut at zero. */
  ghost function LossFigure(w: nat, n: nat, seen: set<int>, copies: int): nat {
    var s := seen * RangeSet(w, n);
    if s == {} then 0
    else Positive(|Dropped(w, n, seen)| - (Least(s) - w) - (n - 1 - Greatest(s)) - copies)
  }

  lemma DroppedOfWindow(w: nat, n: nat, seen: set<int>)
    ensures Dropped(w, n, seen * RangeSet(w, n)) == Dropped(w, n, seen)
  {
  }

  lemma NoWindow(win: seq<Arrival>)
    requires SeqNos(win) == {}
    ensures ReportedLost(win) == 0
  {
  }

  /** End-to-end loss, for a channel that drops, reorders and duplicates. */
  lemma EndToEndLoss(w: nat, n: nat, tr: seq<Arrival>)
    requires n < TWO64
    requires forall x :: x in SeqNos(tr) ==> 0 <= x < n
    ensures ReportedLost(InWindow(w, tr)) == LossFigure(w, n, SeqNos(tr), Duplicates(InWindow(w, tr)))
  {
    var win := InWindow(w, tr);
    WindowSeqNos(w, tr, n);
    assert !SpansAll(win);
    hide InWindow, SeqNos, ReportedLost, Dropped, Missing, SpansAll, Duplicates;
    LossAgainstSets(win);
    DroppedOfWindow(w, n, SeqNos(tr));
    if SeqNos(win) == {} {
      NoWindow(win);
    } else {
      SplitRange(w, n, SeqNos(win));
    }
  }

  lemma AllDropsInside(w: nat, n: nat, s: set<int>)
    requires s <= RangeSet(w, n)
    ensures |Missing(s)| <= |Dropped(w, n, s)|
    ensures |Missing(s)| == |Dropped(w, n, s)| <==> n <= w || (w in s && n - 1 in s)
    ensures n <= w ==> Dropped(w, n, s) == {}
  {
    if s == {} {
      EmptyRange(w, n);
      assert Dropped(w, n, s) == RangeSet(w, n);
    } else {
      SplitRange(w, n, s);
    }
  }

  lemma SameMembers(w: nat, n: nat, win: set<int>, all: set<int>)
    requires win == all * RangeSet(w, n)
    ensures Dropped(w, n, win) == Dropped(w, n, all)
    ensures w < n ==> (w in win <==> w in all) && (n - 1 in win <==> n - 1 in all)
  {
  }

  /** The report is exactly what the channel dropped from the window when, and only
      when, it dropped nothing, or it duplicated nothing and the first and the last
      packet of the window both arrived. */
  lemma EndToEndLossExactIff(w: nat, n: nat, tr: seq<Arrival>)
    requires n < TWO64
    requires forall x :: x in SeqNos(tr) ==> 0 <= x < n
    ensures
      ReportedLost(InWindow(w, tr)) == |Dropped(w, n, SeqNos(tr))| <==>
        || Dropped(w, n, SeqNos(tr)) == {}
        || (Distinct(InWindow(w, tr)) && w in SeqNos(tr) && n - 1 in SeqNos(tr))
  {
    var win := InWindow(w, tr);
    WindowSeqNos(w, tr, n);
    assert !SpansAll(win);
    hide InWindow, SeqNos, ReportedLost, Distinct, Dropped, Missing, SpansAll;
    LossExactIff(win);
    AllDropsInside(w, n, SeqNos(win));
    SameMembers(w, n, SeqNos(win), SeqNos(tr));
  }

  lemma EmptyRange(w: nat, n: nat)
    ensures |RangeSet(w, n)| == 0 <==> n <= w
    ensures w < n ==> w in RangeSet(w, n)
  {
    RangeSize(Min(w, n), n);
    assert RangeSet(w, n) == RangeSet(Min(w, n), n);
  }

  lemma FullWindow(w: nat, n: nat, tr: seq<Arrival>)
    requires w <= n && SeqNos(tr) == RangeSet(0, n)
    ensures SeqNos(InWindow(w, tr)) == RangeSet(w, n)
  {
    hide InWindow, SeqNos;
    WindowSeqNos(w, tr, n);
  }

  lemma RangeHasNoGaps(w: nat, n: nat)
    requires w <= n
    ensures Missing(RangeSet(w, n)) == {} && |RangeSet(w, n)| == n - w
  {
    RangeSize(w, n);
    if w < n {
      LeastIs(RangeSet(w, n), w);
      GreatestIs(RangeSet(w, n), n - 1);
    }
  }

  /** A channel that loses nothing reports no loss, whatever the order and however many
      extra copies it hands over: each of these counts as one more packet received. */
  lemma LosslessChannelReportsNoLoss(w: nat, n: nat, tr: seq<Arrival>)
    requires n < TWO64 && w <= n
    requires SeqNos(tr) == RangeSet(0, n)
    ensures ReportedLost(InWindow(w, tr)) == 0
    ensures |InWindow(w, tr)| == n - w + Duplicates(InWindow(w, tr))
    ensures Duplicates(InWindow(w, tr)) == 0 <==> Distinct(InWindow(w, tr))
    ensures ReportedExpected(InWindow(w, tr)) == n - w
  {
    var win := InWindow(w, tr);
    FullWindow(w, n, tr);
    assert !SpansAll(win);
    hide InWindow, SeqNos, RangeSet, Missing, SpansAll, ReportedLost, ReportedExpected, Distinct;
    RangeHasNoGaps(w, n);
    DistinctAtMostReceived(win);
    LossAgainstSets(win);
  }

  /** At the shipped warm-up the window is exactly what is sent after the first second
      of ticks: through a lossless channel those packets, and extra copies of them, are
      what is received, and none is lost. */
  lemma LosslessRunMeasuresAfterWarmup(neg: Negotiate, ticks: nat, tr: seq<Arrival>)
    requires neg.bitrateBps.Some? && neg.warmupSecs == 1
    requires
      var n := Emitted(SenderBitrate(neg), PacketBytes(neg), TICKS_PER_SEC + ticks);
      n < TWO64 && SeqNos(tr) == RangeSet(0, n)
    ensures
      var win := InWindow(WarmupPackets(neg), tr);
      && ReportedLost(win) == 0
      && |win| - Duplicates(win) == Emitted(SenderBitrate(neg), PacketBytes(neg), TICKS_PER_SEC + ticks)
        - Emitted(SenderBitrate(neg), PacketBytes(neg), TICKS_PER_SEC)
  {
    hide InWindow, SeqNos, ReportedLost, Distinct, Duplicates, Emitted, WarmupPackets, SenderBitrate, PacketBytes;
    WarmupAgreesAtOneSecond(neg);
    EmittedGrows(SenderBitrate(neg), PacketBytes(neg), TICKS_PER_SEC, ticks);
    LosslessChannelReportsNoLoss(
      WarmupPackets(neg), Emitted(SenderBitrate(neg), PacketBytes(neg), TICKS_PER_SEC + ticks), tr);
  }

  /** Duplicates can only hide drops: the report never exceeds them. */
  lemma ReportNeverExceedsDrops(w: nat, n: nat, tr: seq<Arrival>)
    requires n < TWO64
    requires forall x :: x in SeqNos(tr) ==> 0 <= x < n
    ensures ReportedLost(InWindow(w, tr)) <= |Dropped(w, n, SeqNos(tr))|
  {
    var win := InWindow(w, tr);
    var s := SeqNos(win);
    WindowSeqNos(w, tr, n);
    assert !SpansAll(win);
    LossExactIff(win);
    assert Dropped(w, n, s) == Dropped(w, n, SeqNos(tr));
    if s != {} {
      SplitRange(w, n, s);
    }
  }

  /** Every delivery takes between a and a + v nanoseconds, as the two clocks see it. */
  ghost predicate DelaysWithin(n: nat, clock: nat -> u64, turns: seq<Turn>, a: int, v: nat) {
    && v < TWO63
    && forall t :: t in turns && t.Hand? && t.packet < n ==> a <= t.recvNs - clock(t.packet) <= a + v
  }

  lemma {:induction false} HandedDelays(n: nat, len: nat, clock: nat -> u64, turns: seq<Turn>, a: int, v: nat)
    requires DelaysWithin(n, clock, turns, a, v)
    ensures forall p :: p in Handed(n, len, clock, turns) ==> a <= p.recvNs - p.sendNs <= a + v
  {
    if |turns| > 0 {
      HandedDelays(n, len, clock, turns[..|turns| - 1], a, v);
    }
  }

  lemma BandWidth(n: nat, clock: nat -> u64, turns: seq<Turn>, a: int, v: nat)
    requires DelaysWithin(n, clock, turns, a, v)
    ensures v < TWO63
  {
  }

  lemma {:induction false} HandedLengths(n: nat, len: nat, clock: nat -> u64, turns: seq<Turn>)
    ensures forall p :: p in Handed(n, len, clock, turns) ==> p.len == len
  {
    if |turns| > 0 {
      HandedLengths(n, len, clock, turns[..|turns| - 1]);
    }
  }

  /** Every datagram has the size that was negotiated. */
  lemma HandedBytes(w: nat, n: nat, len: nat, clock: nat -> u64, turns: seq<Turn>)
    ensures
      var win := InWindow(w, Handed(n, len, clock, turns));
      TotalLen(win) == |win| * len
  {
    hide InWindow, Handed;
    HandedLengths(n, len, clock, turns);
    InWindowMembers(w, Handed(n, len, clock, turns));
    KnownBytes(InWindow(w, Handed(n, len, clock, turns)), len);
  }

  lemma WindowKeepsDelays(w: nat, tr: seq<Arrival>, a: int, v: nat)
    requires forall p :: p in tr ==> a <= p.recvNs - p.sendNs <= a + v
    ensures forall p :: p in InWindow(w, tr) ==> a <= p.recvNs - p.sendNs <= a + v
  {
    hide InWindow;
    InWindowMembers(w, tr);
  }

  lemma JitterInMs(j: real, d: real, v: real)
    requires 0.0 <= j <= (1.0 - d) * v && 0.0 < d <= 1.0 && v >= 0.0
    ensures 0.0 <= j / 1000000.0 <= v / 1000000.0
  {
    assert (1.0 - d) * v == v - d * v;
    assert d * v >= 0.0;
  }

  /** How often the turns hand over one of the packets numbered w to n - 1. */
  function Handovers(w: nat, n: nat, turns: seq<Turn>): nat {
    if |turns| == 0 then 0
    else
      var t := turns[|turns| - 1];
      Handovers(w, n, turns[..|turns| - 1]) + (if t.Hand? && w <= t.packet < n then 1 else 0)
  }

  lemma HandoversUnfold(w: nat, n: nat, len: nat, clock: nat -> u64, turns: seq<Turn>)
    requires |turns| > 0
    ensures
      var front, t := turns[..|turns| - 1], turns[|turns| - 1];
      && Handed(n, len, clock, turns) == Handed(n, len, clock, front) +
        (if t.Hand? && t.packet < n then [Arrival(t.packet % TWO64, clock(t.packet), t.recvNs, len)] else [])
      && Handovers(w, n, turns) == Handovers(w, n, front) + (if t.Hand? && w <= t.packet < n then 1 else 0)
  {
  }

  lemma NoTurnsHandNothing(w: nat, n: nat, len: nat, clock: nat -> u64)
    ensures InWindow(w, Handed(n, len, clock, [])) == [] && Handovers(w, n, []) == 0
  {
  }

  lemma {:induction false} HandoversAreReceived(w: nat, n: nat, len: nat, clock: nat -> u64, turns: seq<Turn>)
    requires n < TWO64
    ensures |InWindow(w, Handed(n, len, clock, turns))| == Handovers(w, n, turns)
  {
    hide InWindow, Handed, Handovers;
    if |turns| == 0 {
      NoTurnsHandNothing(w, n, len, clock);
    } else {
      var front, t := turns[..|turns| - 1], turns[|turns| - 1];
      HandoversAreReceived(w, n, len, clock, front);
      HandoversUnfold(w, n, len, clock, turns);
      var before := Handed(n, len, clock, front);
      assert before + [] == before;
      if t.Hand? && t.packet < n {
        InWindowSnoc(w, before, Arrival(t.packet % TWO64, clock(t.packet), t.recvNs, len));
      }
    }
  }

  /** The packets of the window that came out of the channel at least once. */
  function WindowPackets(w: nat, n: nat, turns: seq<Turn>): set<int> {
    Packets(n, turns) * RangeSet(w, n)
  }

  /** Handovers beyond the first of each packet of the window. */
  function Copies(w: nat, n: nat, turns: seq<Turn>): int {
    Handovers(w, n, turns) - |WindowPackets(w, n, turns)|
  }

  lemma CopiesAreDuplicates(w: nat, n: nat, len: nat, clock: nat -> u64, turns: seq<Turn>)
    requires n < TWO64
    ensures
      var tr := Handed(n, len, clock, turns);
      && Duplicates(InWindow(w, tr)) == Copies(w, n, turns) >= 0
      && (Distinct(InWindow(w, tr)) <==> Copies(w, n, turns) == 0)
  {
    hide Handed, Packets, InWindow, SeqNos, Distinct, Handovers;
    var tr := Handed(n, len, clock, turns);
    HandoversAreReceived(w, n, len, clock, turns);
    HandedSeqNos(n, len, clock, turns);
    PacketsInRange(n, turns);
    WindowSeqNos(w, tr, n);
    DistinctAtMostReceived(InWindow(w, tr));
  }

  /** The loss figures of a run, in terms of what the channel did. */
  ghost predicate LossOfRun(r: TestResult, w: nat, n: nat, turns: seq<Turn>) {
    && r.packetsReceived == Handovers(w, n, turns)
    && r.packetsLost == LossFigure(w, n, Packets(n, turns), Copies(w, n, turns))
    && r.packetsLost <= |Dropped(w, n, Packets(n, turns))|
    && (r.packetsLost == |Dropped(w, n, Packets(n, turns))| <==>
          || Dropped(w, n, Packets(n, turns)) == {}
          || (Copies(w, n, turns) == 0 && w in Packets(n, turns) && n - 1 in Packets(n, turns)))
  }

  lemma RunLoss(r: TestResult, w: nat, n: nat, len: nat, clock: nat -> u64, turns: seq<Turn>)
    requires n < TWO64 && ResultOf(r, w, Handed(n, len, clock, turns))
    ensures LossOfRun(r, w, n, turns)
  {
    hide Handed, Packets, InWindow, SeqNos, Distinct, Handovers, Dropped, ReportedLost, ReportedExpected, TotalLen;
    hide LossFigure, Copies, Duplicates, Deltas, Jitter;
    var tr := Handed(n, len, clock, turns);
    HandedSeqNos(n, len, clock, turns);
    PacketsInRange(n, turns);
    HandoversAreReceived(w, n, len, clock, turns);
    CopiesAreDuplicates(w, n, len, clock, turns);
    EndToEndLoss(w, n, tr);
    ReportNeverExceedsDrops(w, n, tr);
    EndToEndLossExactIff(w, n, tr);
  }

  /** What a whole run reports: bytes by the size of a packet, loss in terms of what the channel did, for fewer than
      2^64 packets, and a jitter within the band of delays. */
  ghost predicate RunReports(r: TestResult, neg: Negotiate, n: nat, clock: nat -> u64, turns: seq<Turn>) {
    && ResultOf(r, WarmupPackets(neg), Handed(n, PacketBytes(neg), clock, turns))
    && r.bytes == r.packetsReceived * PacketBytes(neg)
    && (n < TWO64 ==> LossOfRun(r, WarmupPackets(neg), n, turns))
    && forall a: int, v: nat :: DelaysWithin(n, clock, turns, a, v) ==> 0.0 <= r.jitterMs <= v as real / 1000000.0
  }

  lemma RunReport(r: TestResult, neg: Negotiate, n: nat, clock: nat -> u64, turns: seq<Turn>)
    requires ResultOf(r, WarmupPackets(neg), Handed(n, PacketBytes(neg), clock, turns))
    ensures RunReports(r, neg, n, clock, turns)
  {
    hide Handed, InWindow, SeqNos, ReportedLost, ReportedExpected, TotalLen, LossOfRun;
    hide PacketBytes, WarmupPackets, Deltas, Jitter, Decay, DelaysWithin;
    var w, len := WarmupPackets(neg), PacketBytes(neg);
    var tr := Handed(n, len, clock, turns);
    HandedBytes(w, n, len, clock, turns);
    if n < TWO64 {
      RunLoss(r, w, n, len, clock, turns);
    }
    forall a: int, v: nat | DelaysWithin(n, clock, turns, a, v)
      ensures 0.0 <= r.jitterMs <= v as real / 1000000.0
    {
      HandedDelays(n, len, clock, turns, a, v);
      BandWidth(n, clock, turns, a, v);
      WindowKeepsDelays(w, tr, a, v);
      JitterOfBoundedDelay(InWindow(w, tr), a, v);
      JitterInMs(Jitter(Deltas(InWindow(w, tr))), Decay(|Deltas(InWindow(w, tr))|), v as real);
    }
  }

  /** A whole UDP run: the sender paces for `ticks` ticks unless its socket fails on packet
      number `failsAt`, the channel does what `turns` says, the receiver measures unless
      its socket fails. */
  method UdpRun(neg: Negotiate, seed: bv64, ticks: nat, clock: nat -> u64, failsAt: Option<nat>,
                turns: seq<Turn>, end: LoopEnd)
    returns (sent: seq<seq<byte>>, ok: bool, r: Option<TestResult>)
    ensures ok <==> failsAt.None? || Emitted(SenderBitrate(neg), PacketBytes(neg), ticks) <= failsAt.value
    ensures |sent| == if ok then Emitted(SenderBitrate(neg), PacketBytes(neg), ticks) else failsAt.value
    ensures AllStamped(sent, Padding(neg, seed), clock)
    ensures r.Some? <==> end.Stopped?
    ensures r.Some? ==> Reports(r.value, WarmupPackets(neg), Deliver(sent, turns), end.nowNs)
    ensures r.Some? ==> RunReports(r.value, neg, |sent|, clock, turns)
  {
    hide Deliver, Handed, RunReports, ResultOf, RatesFit, SamplesOf, Emitted, PacketBytes, SenderBitrate;
    hide WarmupPackets, Arrivals, Padding, AllStamped;
    var bursts;
    sent, bursts, ok := Drive(neg, seed, ticks, clock, failsAt);
    PaddingLength(neg, seed);
    DeliveredArrivals(sent, Padding(neg, seed), clock, turns);
    r := Serve(neg, Deliver(sent, turns), end);
    if r.Some? {
      RunReport(r.value, neg, |sent|, clock, turns);
    }
  }

  lemma PaddingLength(neg: Negotiate, seed: bv64)
    ensures HEADER_LEN + |Padding(neg, seed)| == PacketBytes(neg)
  {
  }

  lemma PacketsInRange(n: nat, turns: seq<Turn>)
    ensures forall x :: x in Packets(n, turns) ==> 0 <= x < n
  {
  }
}
