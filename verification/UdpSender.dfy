/** The sending side of src/modes/udp.rs: fractional pacing, stamping, and how the
    receiver's warm-up threshold compares with what the sender emits. */
module UdpSender {
  import opened Bytes
  import opened Proto
  import opened Datagram
  import opened SplitMix
  import opened UdpReceiver

  const TICKS_PER_SEC: nat := 1000

  /** The datagram size: the negotiated one, but never less than the header. */
  function PacketBytes(neg: Negotiate): (p: nat)
    ensures p >= 16
    ensures neg.packetBytes.None? ==> p == 1472
    ensures neg.packetBytes.Some? ==> p == neg.packetBytes.value || (p == 16 && neg.packetBytes.value < 16)
  {
    Max(UnwrapOr(neg.packetBytes, 1472), HEADER_LEN)
  }

  function SenderBitrate(neg: Negotiate): (b: u64)
    ensures neg.bitrateBps == Some(b) || (neg.bitrateBps.None? && b == 1000000000)
  {
    UnwrapOr(neg.bitrateBps, 1000000000)
  }

  function PacketsPerTick(bitrate: u64, packetBytes: nat): real
    requires packetBytes > 0
  {
    bitrate as real / (packetBytes as real * 8.0) / TICKS_PER_SEC as real
  }

  function FloorDiv(n: nat, d: nat): (q: nat)
    requires d > 0
    ensures q * d <= n < (q + 1) * d
  {
    var q := n / d;
    assert n == q * d + n % d;
    assert (q + 1) * d == q * d + d;
    q
  }

  /** The bits that one packet per tick amounts to each second. */
  function PacketRateBits(packetBytes: nat): (d: nat)
    requires packetBytes > 0
    ensures d > 0
  {
    packetBytes * 8 * TICKS_PER_SEC
  }

  /** Whole packets due after k ticks: floor(k * bitrate / (8 * packetBytes * 1000)). */
  function Emitted(bitrate: u64, packetBytes: nat, k: nat): nat
    requires packetBytes > 0
  {
    FloorDiv(k * bitrate, PacketRateBits(packetBytes))
  }

  // ---- Pacing arithmetic ----------------------------------------------------------

  lemma DivisionUnique(n: nat, d: nat, q: nat)
    requires d > 0 && q * d <= n < (q + 1) * d
    ensures FloorDiv(n, d) == q
  {
    var r := FloorDiv(n, d);
    if r < q {
      MulLe(r + 1, q, d);
    } else if r > q {
      MulLe(q + 1, r, d);
    }
  }

  lemma CastProduct(a: int, b: int)
    ensures (a * b) as real == a as real * b as real
  {
  }

  lemma RealScaleStrict(a: real, b: real, d: real)
    requires a < b && d > 0.0
    ensures a * d < b * d
  {
  }

  lemma RealScale(a: real, b: real, d: real)
    requires a <= b && d >= 0.0
    ensures a * d <= b * d
  {
  }

  lemma FloorBelow(q: int, n: nat, d: nat, x: real)
    requires q as real <= x && x * d as real == n as real
    ensures q * d <= n
  {
    var e := d as real;
    var s, t := q as real * e, x * e;
    assert s <= t by {
      RealScale(q as real, x, e);
    }
    assert (q * d) as real == s by {
      CastProduct(q, d);
    }
  }

  lemma FloorAbove(q: int, n: nat, d: nat, x: real)
    requires d > 0 && x < q as real && x * d as real == n as real
    ensures n < q * d
  {
    var e := d as real;
    var s, t := q as real * e, x * e;
    assert t < s by {
      RealScaleStrict(x, q as real, e);
    }
    assert (q * d) as real == s by {
      CastProduct(q, d);
    }
  }

  lemma FloorOfQuotient(n: nat, d: nat, x: real)
    requires d > 0 && x >= 0.0 && x * d as real == n as real
    ensures x.Floor == FloorDiv(n, d)
    ensures 0.0 <= x - FloorDiv(n, d) as real < 1.0
  {
    hide FloorDiv;
    var q := x.Floor;
    FloorBelow(q, n, d, x);
    FloorAbove(q + 1, n, d, x);
    DivisionUnique(n, d, q);
  }

  /** k ticks' worth of the per-tick rate, cleared of its divisor. */
  lemma RateTimes(bitrate: u64, packetBytes: nat, k: nat)
    requires packetBytes > 0
    ensures k as real * PacketsPerTick(bitrate, packetBytes) * PacketRateBits(packetBytes) as real
      == (k * bitrate) as real
  {
    var p := packetBytes as real * 8.0;
    var r := PacketsPerTick(bitrate, packetBytes);
    assert PacketRateBits(packetBytes) as real == p * 1000.0;
    assert bitrate as real / p * p == bitrate as real;
    assert r * 1000.0 == bitrate as real / p;
    assert r * (p * 1000.0) == (r * 1000.0) * p;
    assert k as real * r * (p * 1000.0) == k as real * (r * (p * 1000.0));
    assert (k * bitrate) as real == k as real * bitrate as real;
  }

  /** The packets due are the floor of k times the rate, and what is left over is a
      fraction of one packet: pacing does not drift. */
  lemma NoDrift(bitrate: u64, packetBytes: nat, k: nat)
    requires packetBytes > 0
    ensures (k as real * PacketsPerTick(bitrate, packetBytes)).Floor == Emitted(bitrate, packetBytes, k)
    ensures 0.0 <= k as real * PacketsPerTick(bitrate, packetBytes) - Emitted(bitrate, packetBytes, k) as real < 1.0
  {
    RateTimes(bitrate, packetBytes, k);
    FloorOfQuotient(k * bitrate, PacketRateBits(packetBytes), k as real * PacketsPerTick(bitrate, packetBytes));
  }

  lemma FloorsAdd(x: nat, y: nat, d: nat)
    requires d > 0
    ensures FloorDiv(x, d) + FloorDiv(y, d) <= FloorDiv(x + y, d) <= FloorDiv(x, d) + FloorDiv(y, d) + 1
    ensures y == FloorDiv(y, d) * d ==> FloorDiv(x + y, d) == FloorDiv(x, d) + FloorDiv(y, d)
  {
    var a, b := FloorDiv(x, d), FloorDiv(y, d);
    assert (a + b) * d == a * d + b * d;
    assert (a + 1) * d == a * d + d && (b + 1) * d == b * d + d;
    assert (a + b + 1) * d == a * d + b * d + d;
    assert (a + b + 1 + 1) * d == a * d + b * d + d + d;
    if x + y < (a + b + 1) * d {
      DivisionUnique(x + y, d, a + b);
    } else {
      DivisionUnique(x + y, d, a + b + 1);
    }
  }

  /** Over any m consecutive ticks the number sent is the floor or the ceiling of m
      times the rate, and exactly m times the rate when that is whole. */
  lemma BurstsAreSmooth(bitrate: u64, packetBytes: nat, a: nat, m: nat)
    requires packetBytes > 0
    ensures
      var sent := Emitted(bitrate, packetBytes, a + m) - Emitted(bitrate, packetBytes, a);
      var x := m as real * PacketsPerTick(bitrate, packetBytes);
      sent == x.Floor || (sent == x.Floor + 1 && x > x.Floor as real)
  {
    var d := PacketRateBits(packetBytes);
    assert (a + m) * bitrate == a * bitrate + m * bitrate;
    FloorsAdd(a * bitrate, m * bitrate, d);
    NoDrift(bitrate, packetBytes, m);
    var x := m as real * PacketsPerTick(bitrate, packetBytes);
    if x == x.Floor as real {
      RateTimes(bitrate, packetBytes, m);
      var q := x.Floor;
      assert q as real * d as real == (m * bitrate) as real;
      assert q as real * d as real == (q * d) as real;
    }
  }

  lemma EmittedGrows(bitrate: u64, packetBytes: nat, a: nat, b: nat)
    requires packetBytes > 0
    ensures Emitted(bitrate, packetBytes, a) <= Emitted(bitrate, packetBytes, a + b)
  {
    assert (a + b) * bitrate == a * bitrate + b * bitrate;
    FloorsAdd(a * bitrate, b * bitrate, PacketRateBits(packetBytes));
  }

  /** Packets sent on tick k. */
  function Burst(bitrate: u64, packetBytes: nat, k: nat): (n: nat)
    requires packetBytes > 0
  {
    EmittedGrows(bitrate, packetBytes, k, 1);
    Emitted(bitrate, packetBytes, k + 1) - Emitted(bitrate, packetBytes, k)
  }

  lemma OneMoreTick(k: nat, r: real)
    ensures (k + 1) as real * r == k as real * r + r
  {
  }

  lemma FloorShift(x: real, e: int)
    ensures (x - e as real).Floor == x.Floor - e
  {
  }

  /** One tick of the carry: what floor(carry + rate) sends and what it leaves. */
  lemma CarryStep(bitrate: u64, packetBytes: nat, k: nat, carry: real)
    requires packetBytes > 0
    requires carry == k as real * PacketsPerTick(bitrate, packetBytes) - Emitted(bitrate, packetBytes, k) as real
    ensures (carry + PacketsPerTick(bitrate, packetBytes)).Floor
      == Burst(bitrate, packetBytes, k)
      == Emitted(bitrate, packetBytes, k + 1) - Emitted(bitrate, packetBytes, k)
    ensures (k + 1) as real * PacketsPerTick(bitrate, packetBytes)
      == k as real * PacketsPerTick(bitrate, packetBytes) + PacketsPerTick(bitrate, packetBytes)
  {
    hide Emitted, PacketsPerTick;
    var r, e := PacketsPerTick(bitrate, packetBytes), Emitted(bitrate, packetBytes, k);
    OneMoreTick(k, r);
    NoDrift(bitrate, packetBytes, k + 1);
    EmittedGrows(bitrate, packetBytes, k, 1);
    FloorShift((k + 1) as real * r, e);
  }

  /** The rate that the repository's own test of it uses: just under 85 packets a tick. */
  lemma KnownRate()
    ensures Emitted(1000000000, 1472, 1) == 84 && Emitted(1000000000, 1472, 1000) == 84918
    ensures 84.91 < PacketsPerTick(1000000000, 1472) < 84.93
  {
    DivisionUnique(1000000000, 11776000, 84);
    DivisionUnique(1000000000000, 11776000, 84918);
  }

  // ---- The send loop --------------------------------------------------------------

  /** Datagram number i: its header, then the padding. */
  function SentDatagram(padding: seq<byte>, clock: nat -> u64, i: nat): seq<byte> {
    Header(i % TWO64, clock(i)) + padding
  }

  /** The bytes after the header, which the seed fixes once and for all. */
  function Padding(neg: Negotiate, seed: bv64): seq<byte> {
    Payload(seed, PacketBytes(neg))[HEADER_LEN..]
  }

  ghost predicate AllStamped(sent: seq<seq<byte>>, padding: seq<byte>, clock: nat -> u64) {
    forall i :: 0 <= i < |sent| ==> sent[i] == SentDatagram(padding, clock, i)
  }

  lemma OneMoreStamped(sent: seq<seq<byte>>, padding: seq<byte>, clock: nat -> u64)
    requires AllStamped(sent, padding, clock)
    ensures AllStamped(sent + [SentDatagram(padding, clock, |sent|)], padding, clock)
  {
    hide SentDatagram;
  }

  /** The burst of one tick: the same buffer restamped for every packet. If the socket
      fails on packet number `failsAt`, the burst ends before that packet is out. */
  method SendBurst(buf: array<byte>, seqNo: u64, toSend: nat, clock: nat -> u64, sent: seq<seq<byte>>,
                   failsAt: Option<nat>)
    returns (seqNo': u64, sent': seq<seq<byte>>, ok: bool)
    requires buf.Length >= HEADER_LEN
    requires seqNo == |sent| % TWO64
    requires AllStamped(sent, buf[HEADER_LEN..], clock)
    requires failsAt.Some? ==> |sent| <= failsAt.value
    modifies buf
    ensures buf[HEADER_LEN..] == old(buf[HEADER_LEN..])
    ensures ok <==> failsAt.None? || |sent| + toSend <= failsAt.value
    ensures |sent'| == if ok then |sent| + toSend else failsAt.value
    ensures seqNo' == |sent'| % TWO64
    ensures AllStamped(sent', buf[HEADER_LEN..], clock)
  {
    hide Header, AllStamped;
    sent', seqNo', ok := sent, seqNo, true;
    var left := toSend;
    while left > 0
      invariant |sent'| + left == |sent| + toSend
      invariant failsAt.Some? ==> |sent'| <= failsAt.value
      invariant seqNo' == |sent'| % TWO64
      invariant buf[HEADER_LEN..] == old(buf[HEADER_LEN..])
      invariant AllStamped(sent', buf[HEADER_LEN..], clock)
    {
      ghost var padding := buf[HEADER_LEN..];
      Stamp(buf, seqNo', clock(|sent'|));
      assert buf[HEADER_LEN..] == padding by {
        assert buf[..][HEADER_LEN..] == padding;
      }
      if failsAt == Some(|sent'|) {
        ok := false;
        return;
      }
      OneMoreStamped(sent', padding, clock);
      assert buf[..] == SentDatagram(padding, clock, |sent'|);
      sent' := sent' + [buf[..]];
      seqNo' := (seqNo' + 1) % TWO64;
      left := left - 1;
    }
    ok := true;
  }

  /** Sends for `ticks` ticks of the pacing timer, or until the socket fails on packet
      number `failsAt`; clock(i) is the stamp read just before packet i, and bursts records
      how many packets were due on each tick. */
  method Drive(neg: Negotiate, seed: bv64, ticks: nat, clock: nat -> u64, failsAt: Option<nat>)
    returns (sent: seq<seq<byte>>, bursts: seq<nat>, ok: bool)
    ensures ok <==> failsAt.None? || Emitted(SenderBitrate(neg), PacketBytes(neg), ticks) <= failsAt.value
    ensures |sent| == if ok then Emitted(SenderBitrate(neg), PacketBytes(neg), ticks) else failsAt.value
    ensures if ok then |bursts| == ticks
      else
        && 0 < |bursts| <= ticks
        && Emitted(SenderBitrate(neg), PacketBytes(neg), |bursts| - 1) <= |sent|
          < Emitted(SenderBitrate(neg), PacketBytes(neg), |bursts|)
    ensures AllStamped(sent, Padding(neg, seed), clock)
    ensures forall k :: 0 <= k < |bursts| ==> bursts[k] == Burst(SenderBitrate(neg), PacketBytes(neg), k)
  {
    hide Payload, Emitted, PacketsPerTick, SenderBitrate, PacketBytes, Burst, AllStamped;
    var packetBytes, bitrate := PacketBytes(neg), SenderBitrate(neg);
    var rate := PacketsPerTick(bitrate, packetBytes);
    var buf := new byte[packetBytes];
    FillRandom(buf, seed);
    assert buf[HEADER_LEN..] == buf[..][HEADER_LEN..];
    var seqNo: u64 := 0;
    var carry := 0.0;
    sent, bursts, ok := [], [], true;
    NothingYet(bitrate, packetBytes);
    NothingStamped(Padding(neg, seed), clock);
    for k := 0 to ticks
      invariant |sent| == Emitted(bitrate, packetBytes, k) && |bursts| == k
      invariant failsAt.Some? ==> |sent| <= failsAt.value
      invariant carry == k as real * rate - Emitted(bitrate, packetBytes, k) as real
      invariant seqNo == |sent| % TWO64
      invariant buf[HEADER_LEN..] == Padding(neg, seed)
      invariant AllStamped(sent, Padding(neg, seed), clock)
      invariant forall j :: 0 <= j < k ==> bursts[j] == Burst(bitrate, packetBytes, j)
    {
      CarryStep(bitrate, packetBytes, k, carry);
      carry := carry + rate;
      var toSend := carry.Floor;
      carry := carry - toSend as real;
      bursts := bursts + [toSend];
      seqNo, sent, ok := SendBurst(buf, seqNo, toSend, clock, sent, failsAt);
      if !ok {
        EmittedGrows(bitrate, packetBytes, k + 1, ticks - (k + 1));
        return;
      }
    }
    ok := true;
  }

  lemma NothingStamped(padding: seq<byte>, clock: nat -> u64)
    ensures AllStamped([], padding, clock)
  {
  }

  lemma NothingYet(bitrate: u64, packetBytes: nat)
    requires packetBytes > 0
    ensures Emitted(bitrate, packetBytes, 0) == 0
  {
    DivisionUnique(0, PacketRateBits(packetBytes), 0);
  }

  // ---- Warm-up agreement ----------------------------------------------------------

  lemma ScaledQuotient(n: nat, d: nat, c: nat)
    requires d > 0 && c > 0
    ensures d * c > 0 && FloorDiv(n * c, d * c) == FloorDiv(n, d)
  {
    var q := FloorDiv(n, d);
    assert d * c > 0;
    MulLe(q * d, n, c);
    assert q * (d * c) == (q * d) * c;
    MulLe(n + 1, (q + 1) * d, c);
    assert (n + 1) * c == n * c + c;
    assert (q + 1) * (d * c) == ((q + 1) * d) * c;
    DivisionUnique(n * c, d * c, q);
  }

  /** Packets the sender emits in its first w seconds of ticks. */
  lemma EmittedInSeconds(bitrate: u64, packetBytes: nat, w: nat)
    requires packetBytes > 0
    ensures Emitted(bitrate, packetBytes, w * TICKS_PER_SEC) == FloorDiv(w * bitrate, packetBytes * 8)
  {
    assert (w * TICKS_PER_SEC) * bitrate == (w * bitrate) * TICKS_PER_SEC;
    ScaledQuotient(w * bitrate, packetBytes * 8, TICKS_PER_SEC);
  }

  function Rest(b: nat, d: nat): (r: nat)
    requires d > 0
    ensures r < d && b == FloorDiv(b, d) * d + r
  {
    b % d
  }

  lemma ProductOfParts(w: int, b: int, q: int, d: int, r: int)
    requires b == q * d + r
    ensures w * b == (q * w) * d + w * r
  {
    assert w * (q * d) == (q * w) * d;
  }

  lemma AddedQuotient(n: nat, d: nat, p: nat, y: nat)
    requires d > 0 && n == p * d + y
    ensures FloorDiv(n, d) == p + FloorDiv(y, d)
  {
    hide FloorDiv;
    var s := FloorDiv(y, d);
    assert (p + s) * d == p * d + s * d;
    assert (p + s + 1) * d == p * d + (s + 1) * d;
    DivisionUnique(n, d, p + s);
  }

  lemma SmallQuotient(w: nat, r: nat, d: nat)
    requires r < d && w > 0
    ensures FloorDiv(w * r, d) < w
  {
    hide FloorDiv;
    var s := FloorDiv(w * r, d);
    MulLe(r, d - 1, w);
    assert w * (d - 1) == w * d - w;
    if s >= w {
      MulLe(w, s, d);
    }
  }

  lemma QuotientOfProduct(w: nat, b: nat, d: nat)
    requires d > 0
    ensures FloorDiv(w * b, d) == FloorDiv(b, d) * w + FloorDiv(w * Rest(b, d), d)
    ensures w > 0 ==> FloorDiv(w * Rest(b, d), d) <= w - 1
    ensures w == 0 ==> FloorDiv(w * Rest(b, d), d) == 0
  {
    hide FloorDiv, Rest;
    var q, r := FloorDiv(b, d), Rest(b, d);
    ProductOfParts(w, b, q, d, r);
    AddedQuotient(w * b, d, q * w, w * r);
    if w > 0 {
      SmallQuotient(w, r, d);
    } else {
      DivisionUnique(0, d, 0);
    }
  }

  /** The receiver's threshold before it is cut to a u64: whole packets per second, times
      the seconds of warm-up. */
  function WarmupProduct(neg: Negotiate): nat
    requires neg.bitrateBps.Some?
  {
    FloorDiv(neg.bitrateBps.value, PacketBytes(neg) * 8) * neg.warmupSecs
  }

  /** What the fractions of a packet per second amount to over the warm-up. */
  function RoundingLoss(neg: Negotiate): nat
    requires neg.bitrateBps.Some?
  {
    var d := PacketBytes(neg) * 8;
    FloorDiv(neg.warmupSecs * Rest(neg.bitrateBps.value, d), d)
  }

  lemma ThresholdIs(neg: Negotiate)
    requires neg.bitrateBps.Some?
    ensures WarmupPackets(neg) == WarmupProduct(neg) % TWO64
  {
  }

  lemma WarmupEmission(neg: Negotiate)
    requires neg.bitrateBps.Some?
    ensures Emitted(SenderBitrate(neg), PacketBytes(neg), neg.warmupSecs * TICKS_PER_SEC)
      == WarmupProduct(neg) + RoundingLoss(neg)
    ensures if neg.warmupSecs == 0 then WarmupProduct(neg) == RoundingLoss(neg) == 0
      else RoundingLoss(neg) <= neg.warmupSecs - 1
  {
    hide FloorDiv, Rest, Emitted, PacketBytes;
    EmittedInSeconds(neg.bitrateBps.value, PacketBytes(neg), neg.warmupSecs);
    QuotientOfProduct(neg.warmupSecs, neg.bitrateBps.value, PacketBytes(neg) * 8);
  }

  lemma WrapLoses(x: nat)
    ensures x < TWO64 ==> x - x % TWO64 == 0
    ensures x >= TWO64 ==> x - x % TWO64 >= TWO64
    ensures x - x % TWO64 >= 0
  {
  }

  /** A total of p + s against a threshold that is p wrapped. */
  lemma Shortfall(total: nat, threshold: nat, p: nat, s: nat, w: u64)
    requires total == p + s && threshold == p % TWO64
    requires if w == 0 then p == s == 0 else s <= w - 1
    ensures total - threshold == s + (p - p % TWO64) >= 0
    ensures w == 0 ==> total == threshold
    ensures w > 0 ==> (total - threshold <= w - 1 <==> p < TWO64)
  {
    WrapLoses(p);
  }

  /** With a negotiated bitrate, the receiver's threshold never exceeds what the sender
      emits in the warm-up. Unless its u64 product wraps it falls short by the rounding
      of the rate alone, at most w - 1; a product that wraps loses 2^64 or more. */
  lemma WarmupThreshold(neg: Negotiate)
    requires neg.bitrateBps.Some?
    ensures
      var w, product := neg.warmupSecs, WarmupProduct(neg);
      var shortfall := Emitted(SenderBitrate(neg), PacketBytes(neg), w * TICKS_PER_SEC) - WarmupPackets(neg);
      && shortfall == RoundingLoss(neg) + (product - product % TWO64) >= 0
      && (w == 0 ==> shortfall == 0)
      && (w > 0 ==> (shortfall <= w - 1 <==> product < TWO64))
  {
    hide WarmupProduct, RoundingLoss, Emitted, WarmupPackets, PacketBytes, SenderBitrate;
    ThresholdIs(neg);
    WarmupEmission(neg);
    Shortfall(Emitted(SenderBitrate(neg), PacketBytes(neg), neg.warmupSecs * TICKS_PER_SEC), WarmupPackets(neg),
      WarmupProduct(neg), RoundingLoss(neg), neg.warmupSecs);
  }

  /** 2^56 packets a second for 256 seconds: the sender emits 2^64 packets in the warm-up,
      and the threshold wraps to none. */
  lemma WarmupProductWraps(neg: Negotiate)
    requires neg.bitrateBps == Some(0x8000_0000_0000_0000) && neg.packetBytes == Some(16) && neg.warmupSecs == 256
    ensures WarmupPackets(neg) == 0
    ensures Emitted(SenderBitrate(neg), PacketBytes(neg), neg.warmupSecs * TICKS_PER_SEC) == TWO64
  {
    var b, d := 0x8000_0000_0000_0000, 128;
    assert PacketBytes(neg) * 8 == d;
    DivisionUnique(b, d, 0x100_0000_0000_0000);
    ThresholdIs(neg);
    EmittedInSeconds(b, PacketBytes(neg), 256);
    DivisionUnique(256 * b, d, TWO64);
  }

  lemma QuotientAtMost(b: nat, d: nat)
    requires d > 0
    ensures FloorDiv(b, d) <= b
  {
    MulLe(1, d, FloorDiv(b, d));
  }

  /** The two sides agree at the shipped one-second warm-up. */
  lemma WarmupAgreesAtOneSecond(neg: Negotiate)
    requires neg.bitrateBps.Some? && neg.warmupSecs == 1
    ensures WarmupPackets(neg) == Emitted(SenderBitrate(neg), PacketBytes(neg), TICKS_PER_SEC)
  {
    hide WarmupPackets, Emitted, FloorDiv, PacketBytes, SenderBitrate;
    QuotientAtMost(neg.bitrateBps.value, PacketBytes(neg) * 8);
    WarmupThreshold(neg);
    assert WarmupProduct(neg) < TWO64;
  }

  /** Without a negotiated bitrate the defaults differ: the receiver excludes nothing,
      so the sides agree exactly when the sender emits nothing in the warm-up. */
  lemma WarmupWithoutBitrate(neg: Negotiate)
    requires neg.bitrateBps.None?
    ensures WarmupPackets(neg) == 0
    ensures Emitted(SenderBitrate(neg), PacketBytes(neg), neg.warmupSecs * TICKS_PER_SEC) == 0
      <==> neg.warmupSecs * 1000000000 < PacketBytes(neg) * 8
  {
    var d, w := PacketBytes(neg) * 8, neg.warmupSecs;
    EmittedInSeconds(1000000000, PacketBytes(neg), w);
    DivisionUnique(0, d, 0);
    var n := (w as nat) * 1000000000;
    if n < d {
      DivisionUnique(n, d, 0);
    }
  }
}
