/** The file transfer of src/modes/file.rs under arbitrary read sizes. */
module FileTransfer {
  import opened Bytes
  import opened Proto
  import opened Series

  /** Copy buffer size. */
  const BUF: nat := 262144

  /** How many bytes read number k yields into a buffer of `want` when `left` are there:
      what is offered, as far as buffer and source allow, and at least one. */
  function Chunk(offer: nat -> nat, k: nat, want: nat, left: nat): (n: nat)
    requires want > 0 && left > 0
    ensures 1 <= n <= want && n <= left
    ensures offer(k) >= want && left >= want ==> n == want
    ensures 0 < offer(k) <= want && offer(k) <= left ==> n == offer(k)
    ensures offer(k) >= left && want >= left ==> n == left
  {
    Max(1, Min(offer(k), Min(want, left)))
  }

  /** A byte source, a socket or a file: after its last byte it ends, or, if it `breaks`,
      fails. Only how many bytes are left matters, since the receiver counts and discards. */
  class Source {
    const breaks: bool
    const offer: nat -> nat
    var remaining: nat
    var turn: nat

    constructor (length: nat, breaks: bool, offer: nat -> nat)
      ensures remaining == length && turn == 0 && this.breaks == breaks && this.offer == offer
    {
      remaining, turn, this.breaks, this.offer := length, 0, breaks, offer;
    }

    /** One read into a buffer of `want` bytes: some of what is there, and past the last
        byte zero or an error. */
    method Read(want: nat) returns (n: Option<nat>)
      requires want > 0
      modifies this
      ensures turn == old(turn) + 1
      ensures n.None? <==> old(remaining) == 0 && breaks
      ensures n.None? ==> remaining == 0
      ensures n.Some? ==>
        && n.value <= old(remaining) && remaining == old(remaining) - n.value
        && n.value == if old(remaining) == 0 then 0 else Chunk(offer, old(turn), want, old(remaining))
    {
      turn := turn + 1;
      if remaining == 0 {
        return if breaks then None else Some(0);
      }
      var k := Chunk(offer, turn - 1, want, remaining);
      remaining := remaining - k;
      n := Some(k);
    }
  }

  /** The stream that a sender writes: it takes all that is written, or, if it has a
      `room`, that many bytes before a write fails. */
  class Sink {
    const room: Option<nat>
    var taken: nat

    constructor (room: Option<nat>)
      ensures taken == 0 && this.room == room
    {
      taken, this.room := 0, room;
    }

    /** write_all of `n` bytes. */
    method WriteAll(n: nat) returns (ok: bool)
      requires Holds(room, taken)
      modifies this
      ensures ok <==> Holds(room, old(taken) + n)
      ensures taken == Cut(room, old(taken) + n)
    {
      ok := Holds(room, taken + n);
      taken := Cut(room, taken + n);
    }
  }

  predicate Holds(room: Option<nat>, n: nat) {
    room.None? || n <= room.value
  }

  /** What gets through of n bytes. */
  function Cut(room: Option<nat>, n: nat): (m: nat)
    ensures m <= n && (room.Some? ==> m <= room.value)
    ensures m == n || room == Some(m)
  {
    if Holds(room, n) then n else room.value
  }

  // ---- Receiver -------------------------------------------------------------------

  /** The file sampler: ticks read the shared counter until it shows the full length. */
  class Sampler {
    const expected: nat
    var last: nat
    var samples: seq<nat>
    var stopped: bool
    /** What its ticks have read so far. */
    ghost var readings: seq<nat>

    ghost predicate Valid()
      reads this
    {
      && samples == Intervals(0, readings) && last == Last(0, readings)
      && NonDecreasing(0, readings)
      && (stopped <==> |readings| > 0 && last >= expected)
      && forall i :: 0 <= i < |readings| - 1 ==> readings[i] < expected
    }

    constructor (expected: nat)
      ensures Valid() && readings == [] && !stopped && this.expected == expected
    {
      this.expected, last, samples, stopped, readings := expected, 0, [], false, [];
    }

    /** One tick, unless the sampler has stopped. The counter never goes back. */
    method Tick(counter: nat)
      requires Valid() && last <= counter
      modifies this
      ensures Valid()
      ensures readings == if old(stopped) then old(readings) else old(readings) + [counter]
    {
      if stopped {
        return;
      }
      IntervalsSnoc(0, readings, counter);
      samples := samples + [SatSub(counter, last)];
      last := counter;
      stopped := counter >= expected;
      readings := readings + [counter];
    }

    /** The intervals recorded always add up to the last reading. */
    lemma SamplesAddUp()
      requires Valid()
      ensures Sum(samples) == last
    {
      IntervalsAddUp(0, readings);
    }
  }

  datatype FileResult = FileResult(
    bytes: nat, durationNs: nat, bitsPerSec: real, bytesPerSec: real, samples: seq<nat>)

  /** How receiving ends: with a result, still waiting for the sampler, or with an error
      of the stream. */
  datatype Outcome = Reported(result: FileResult) | Waiting | StreamError

  /** The receive loop and its sampler, interleaved in any way. The stream fails it exactly
      if it breaks before the whole length is in. The loop takes `durationNs`, and once it
      is over the server waits for the sampler through at most
      `patience` more ticks. */
  method Serve(conn: Source, expected: nat, durationNs: nat, patience: nat) returns (received: nat, r: Outcome)
    modifies conn
    ensures received == Min(expected, old(conn.remaining)) && conn.remaining == old(conn.remaining) - received
    ensures r.StreamError? <==> conn.breaks && old(conn.remaining) < expected
    ensures r.Reported? ==>
      && r.result.bytes == received == expected == Sum(r.result.samples)
      && r.result.durationNs == durationNs
      && RatesOf(r.result.bitsPerSec, r.result.bytesPerSec, received, durationNs)
    ensures !r.StreamError? && received == expected && patience > 0 ==> r.Reported?
  {
    var sampler := new Sampler(expected);
    received := 0;
    while received < expected
      invariant received <= expected && received + conn.remaining == old(conn.remaining)
      invariant fresh(sampler) && sampler.Valid() && sampler.last <= received && sampler.expected == expected
      decreases expected - received
    {
      var ticks: nat := *;
      TickSome(sampler, received, ticks);
      var want := Min(expected - received, BUF);
      var n := conn.Read(want);
      if n.None? {
        return received, StreamError;
      }
      if n.value == 0 {
        break;
      }
      received := received + n.value;
    }
    TickSome(sampler, received, patience);
    sampler.SamplesAddUp();
    RatesAre(received, durationNs);
    r := if sampler.stopped
         then Reported(FileResult(received, durationNs, Rate(8 * received, durationNs), Rate(received, durationNs),
           sampler.samples))
         else Waiting;
  }

  /** Some ticks go by while the counter stands at `counter`. */
  method TickSome(sampler: Sampler, counter: nat, ticks: nat)
    requires sampler.Valid() && sampler.last <= counter
    modifies sampler
    ensures sampler.Valid() && old(sampler.last) <= sampler.last <= counter
    ensures ticks > 0 && counter >= sampler.expected ==> sampler.stopped
    ensures counter < sampler.expected ==> !sampler.stopped
  {
    for t := 0 to ticks
      invariant sampler.Valid() && old(sampler.last) <= sampler.last <= counter
      invariant t > 0 && counter >= sampler.expected ==> sampler.stopped
    {
      sampler.Tick(counter);
    }
  }

  // ---- Senders --------------------------------------------------------------------

  /** The in-memory source: whole or part buffers until the length is reached, or until a
      write fails, which is exactly if the stream has no room for the length. */
  method SendNull(stream: Sink, total: nat) returns (sent: nat, ok: bool, ghost writes: seq<nat>)
    requires stream.taken == 0
    modifies stream
    ensures ok <==> Holds(stream.room, total)
    ensures stream.taken == Cut(stream.room, total)
    ensures ok ==> sent == total
    ensures !ok ==> sent <= stream.taken < sent + BUF
    ensures Sum(writes) == sent
    ensures forall i :: 0 <= i < |writes| ==> 0 < writes[i] <= 262144
    ensures forall i :: 0 <= i < |writes| - 1 ==> writes[i] == 262144
  {
    sent, ok, writes := 0, true, [];
    while sent < total
      invariant sent == stream.taken <= total && Holds(stream.room, sent)
      invariant Sum(writes) == sent
      invariant forall i :: 0 <= i < |writes| ==> 0 < writes[i] <= BUF
      invariant forall i :: 0 <= i < |writes| ==> writes[i] == BUF || (i == |writes| - 1 && sent == total)
    {
      var want := Min(total - sent, BUF);
      ok := stream.WriteAll(want);
      if !ok {
        return;
      }
      SumSnoc(writes, want);
      writes := writes + [want];
      sent := sent + want;
    }
    ok := true;
  }

  /** A sequence of read sizes that the disk loop can see for a file of `length` bytes:
      each read yields something that is there and fits the buffer, and is made only
      while fewer than `total` bytes are sent. */
  ghost predicate DiskReads(ns: seq<nat>, length: nat, total: nat) {
    forall k :: 0 <= k < |ns| ==>
      0 < ns[k] <= BUF && Sum(ns[..k]) + ns[k] <= length && Sum(ns[..k]) < total
  }

  /** The loop ends at the end of the file or once `total` bytes are sent. */
  ghost predicate DiskDone(ns: seq<nat>, length: nat, total: nat) {
    DiskReads(ns, length, total) && (Sum(ns) >= total || Sum(ns) == length)
  }

  lemma DiskReadsSnoc(ns: seq<nat>, n: nat, length: nat, total: nat)
    requires DiskReads(ns, length, total)
    requires 0 < n <= BUF && Sum(ns) + n <= length && Sum(ns) < total
    ensures DiskReads(ns + [n], length, total) && Sum(ns + [n]) == Sum(ns) + n
  {
    var r := ns + [n];
    SumSnoc(ns, n);
    forall k | 0 <= k < |r|
      ensures 0 < r[k] <= BUF && Sum(r[..k]) + r[k] <= length && Sum(r[..k]) < total
    {
      if k < |ns| {
        assert r[..k] == ns[..k];
      } else {
        assert r[..k] == ns;
      }
    }
  }

  /** Each read is into a whole buffer, whatever is left of the negotiated length. */
  ghost predicate UncappedReads(ns: seq<nat>, offer: nat -> nat, length: nat) {
    forall k :: 0 <= k < |ns| ==> Sum(ns[..k]) < length && ns[k] == Chunk(offer, k, 262144, length - Sum(ns[..k]))
  }

  lemma NoReads(offer: nat -> nat, length: nat)
    ensures UncappedReads([], offer, length)
  {
  }

  lemma UncappedSnoc(ns: seq<nat>, n: nat, offer: nat -> nat, length: nat)
    requires UncappedReads(ns, offer, length)
    requires Sum(ns) < length && n == Chunk(offer, |ns|, 262144, length - Sum(ns))
    ensures UncappedReads(ns + [n], offer, length)
  {
    hide Chunk, Sum;
    var r := ns + [n];
    forall k | 0 <= k < |r|
      ensures Sum(r[..k]) < length && r[k] == Chunk(offer, k, 262144, length - Sum(r[..k]))
    {
      if k < |ns| {
        assert r[..k] == ns[..k];
      } else {
        assert r[..k] == ns;
      }
    }
  }

  /** The disk source. A read is not capped at what is left of the negotiated length. With
      `taken` bytes read off the file it fails exactly if the stream has no room for them,
      or the file breaks before the length is reached; with room it reads on until the
      length is reached or nothing is left. */
  method SendDisk(file: Source, stream: Sink, total: nat) returns (sent: nat, ok: bool, ghost ns: seq<nat>)
    requires stream.taken == 0 && file.turn == 0
    modifies file, stream
    ensures UncappedReads(ns, file.offer, old(file.remaining))
    ensures
      var read := old(file.remaining) - file.remaining;
      && file.remaining <= old(file.remaining)
      && (ok <==> Holds(stream.room, read) && (read >= total || !file.breaks))
      && stream.taken == Cut(stream.room, read)
      && (Holds(stream.room, read) ==> sent == read && DiskDone(ns, old(file.remaining), total))
      && (!Holds(stream.room, read) ==> sent <= stream.taken < read <= sent + BUF)
    ensures DiskReads(ns, old(file.remaining), total) && sent == Sum(ns)
    ensures ok && old(file.remaining) <= total ==> sent == old(file.remaining)
    ensures ok && old(file.remaining) > total ==>
      total <= sent <= old(file.remaining) && (total > 0 ==> sent < total + BUF)
  {
    hide Chunk, UncappedReads;
    ghost var length := file.remaining;
    sent, ok, ns := 0, true, [];
    NoReads(file.offer, length);
    while sent < total
      invariant sent == stream.taken && sent + file.remaining == length && sent == Sum(ns)
      invariant Holds(stream.room, sent)
      invariant DiskReads(ns, length, total)
      invariant |ns| == file.turn && UncappedReads(ns, file.offer, length)
      invariant sent == 0 || sent < total + BUF
      decreases length - sent
    {
      var n := file.Read(BUF);
      if n.None? {
        ok := false;
        return;
      }
      if n.value == 0 {
        break;
      }
      ok := stream.WriteAll(n.value);
      if !ok {
        return;
      }
      DiskReadsSnoc(ns, n.value, length, total);
      UncappedSnoc(ns, n.value, file.offer, length);
      ns := ns + [n.value];
      sent := sent + n.value;
    }
    ok := true;
  }

  lemma SumOfPrefix(ns: seq<nat>)
    requires |ns| > 0
    ensures Sum(ns) == Sum(ns[..|ns| - 1]) + ns[|ns| - 1]
  {
    assert ns == ns[..|ns| - 1] + [ns[|ns| - 1]];
    SumSnoc(ns[..|ns| - 1], ns[|ns| - 1]);
  }

  lemma Ones(k: nat) returns (ns: seq<nat>)
    ensures |ns| == k && Sum(ns) == k
    ensures forall i :: 0 <= i < k ==> ns[i] == 1
    ensures forall i :: 0 <= i <= k ==> Sum(ns[..i]) == i
  {
    ns := [];
    for i := 0 to k
      invariant |ns| == i && Sum(ns) == i
      invariant forall j :: 0 <= j < i ==> ns[j] == 1
      invariant forall j :: 0 <= j <= i ==> Sum(ns[..j]) == j
    {
      SumSnoc(ns, 1);
      var next := ns + [1];
      forall j | 0 <= j <= i + 1
        ensures Sum(next[..j]) == j
      {
        if j <= i {
          assert next[..j] == ns[..j];
        } else {
          assert next[..j] == next;
        }
      }
      ns := next;
    }
  }

  /** The documented bound of a disk transfer, the negotiated length, is kept under all
      read sizes exactly when the file did not grow past it (or nothing is to be sent). */
  lemma DiskSendBoundedIff(length: nat, total: nat)
    ensures (forall ns :: DiskDone(ns, length, total) ==> Sum(ns) <= total) <==> length <= total || total == 0
  {
    if length <= total || total == 0 {
      forall ns | DiskDone(ns, length, total)
        ensures Sum(ns) <= total
      {
        if |ns| > 0 {
          SumOfPrefix(ns);
          assert Sum(ns[..|ns| - 1]) + ns[|ns| - 1] <= length;
        }
      }
    } else {
      var ns := Ones(total - 1);
      assert DiskReads(ns, length, total);
      DiskReadsSnoc(ns, 2, length, total);
      assert DiskDone(ns + [2], length, total) && Sum(ns + [2]) == total + 1;
    }
  }

  // ---- Both ends ------------------------------------------------------------------

  /** A transfer negotiated for `total` bytes. `length` is how much can be read of the file,
      which need not be the length measured before and after which the file may break;
      `room` is how much the client's writes get through, all if None, as when the server,
      having its length, closes on a file that grew; the server's stream is reset after
      `reset` bytes, if at all. The server counts what reached it, up to `total`, and
      however many ticks it waits it has a result exactly when the whole length did. */
  method Transfer(length: nat, breaks: bool, total: nat, nullSource: bool, room: Option<nat>, reset: Option<nat>,
                  fileOffer: nat -> nat, connOffer: nat -> nat, durationNs: nat, patience: nat)
    returns (out: nat, ok: bool, received: nat, r: Outcome)
    requires patience > 0
    ensures received == Min(Cut(reset, out), total)
    ensures r.Reported? <==> received == total
    ensures r.StreamError? <==> received < total && reset.Some?
    ensures r.Reported? ==> r.result.bytes == total == Sum(r.result.samples)
    ensures nullSource ==> out == Cut(room, total) && (ok <==> Holds(room, total))
    ensures !nullSource && length <= total ==>
      out == Cut(room, length) && (ok <==> Holds(room, length) && (length == total || !breaks))
    ensures !nullSource && length > total && Holds(room, length) ==> ok && total <= out <= length
    ensures !nullSource && length > total ==> Cut(room, total) <= out <= Cut(room, length)
    ensures !nullSource && length > total && ok ==> total <= out
    ensures !nullSource && length > total && !ok ==> room == Some(out)
    ensures room.None? && reset.None? && (nullSource || !breaks) ==>
      && ok && received == (if nullSource then total else Min(length, total))
      && (r.Reported? <==> nullSource || length >= total)
  {
    ghost var sent: nat, trail: seq<nat>;
    var stream := new Sink(room);
    if nullSource {
      sent, ok, trail := SendNull(stream, total);
    } else {
      var file := new Source(length, breaks, fileOffer);
      sent, ok, trail := SendDisk(file, stream, total);
    }
    out := stream.taken;
    var conn := new Source(Cut(reset, out), reset.Some?, connOffer);
    received, r := Serve(conn, total, durationNs, patience);
  }
}
