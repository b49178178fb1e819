/** The control framing of src/proto.rs: a 4-byte big-endian length, then the payload.
    Payloads are byte strings; their JSON codec is not part of this model. */
module Framing {
  import opened Bytes

  const MAX_FRAME_BYTES: nat := 65536

  datatype ReadError = UnexpectedEof | OversizedFrame

  datatype ReadResult = Payload(bytes: seq<byte>) | Failed(error: ReadError)

  function Frame(payload: seq<byte>): seq<byte> {
    ToBe(|payload|, 4) + payload
  }

  /** A frame is four bytes of length, most significant first, that count the payload only,
      and the payload. */
  lemma FrameBytes(payload: seq<byte>)
    ensures |Frame(payload)| == 4 + |payload| && Frame(payload)[4..] == payload
    ensures forall i :: 0 <= i < 4 ==> Frame(payload)[i] == |payload| / Pow256(3 - i) % 256
  {
    forall i | 0 <= i < 4
      ensures Frame(payload)[i] == |payload| / Pow256(3 - i) % 256
    {
      BeByte(|payload|, 4, i);
    }
  }

  /** What one read makes of the bytes of a stream: its outcome and what it leaves. */
  function Decode(stream: seq<byte>): (r: (ReadResult, seq<byte>)) {
    if |stream| < 4 then (Failed(UnexpectedEof), [])
    else
      var len := FromBe(stream[..4]);
      if len > MAX_FRAME_BYTES then (Failed(OversizedFrame), stream[4..])
      else if |stream| - 4 < len then (Failed(UnexpectedEof), [])
      else (Payload(stream[4..4 + len]), stream[4 + len..])
  }

  /** The bytes in flight from writer to reader. */
  class ByteStream {
    var bytes: seq<byte>

    constructor ()
      ensures bytes == []
    {
      bytes := [];
    }

    /** write_all of a buffer. */
    method WriteAll(buf: seq<byte>)
      modifies this
      ensures bytes == old(bytes) + buf
    {
      bytes := bytes + buf;
    }

    /** read_exact into a buffer of n bytes, chunk by chunk; at the end of the stream
        it fails with the stream used up. */
    method ReadExact(n: nat) returns (ok: bool, buf: seq<byte>)
      modifies this
      ensures ok <==> |old(bytes)| >= n
      ensures ok ==> buf == old(bytes)[..n] && bytes == old(bytes)[n..]
      ensures !ok ==> bytes == []
    {
      buf := [];
      while |buf| < n && |bytes| > 0
        invariant |buf| <= n
        invariant buf + bytes == old(bytes)
        decreases n - |buf|
      {
        var chunk: nat :| 1 <= chunk <= n - |buf| && chunk <= |bytes|;
        assert bytes[..chunk] + bytes[chunk..] == bytes;
        buf := buf + bytes[..chunk];
        bytes := bytes[chunk..];
      }
      ok := |buf| == n;
    }

    /** write_msg: a payload over the cap is refused before anything is written. */
    method WriteMsg(payload: seq<byte>) returns (ok: bool)
      modifies this
      ensures ok <==> |payload| <= MAX_FRAME_BYTES
      ensures bytes == if ok then old(bytes) + Frame(payload) else old(bytes)
    {
      if |payload| > MAX_FRAME_BYTES {
        return false;
      }
      WriteAll(ToBe(|payload|, 4));
      WriteAll(payload);
      ok := true;
    }

    /** read_msg: an oversized declared length is refused before the body is read. */
    method ReadMsg() returns (r: ReadResult)
      modifies this
      ensures (r, bytes) == Decode(old(bytes))
    {
      ghost var before := bytes;
      var ok, lenBuf := ReadExact(4);
      if !ok {
        return Failed(UnexpectedEof);
      }
      var len := FromBe(lenBuf);
      if len > MAX_FRAME_BYTES {
        return Failed(OversizedFrame);
      }
      var body;
      ok, body := ReadExact(len);
      if !ok {
        return Failed(UnexpectedEof);
      }
      assert before[4..][..len] == before[4..4 + len];
      assert before[4..][len..] == before[4 + len..];
      r := Payload(body);
    }
  }

  // ---- Whole runs -----------------------------------------------------------------

  ghost predicate Sendable(payloads: seq<seq<byte>>) {
    forall i :: 0 <= i < |payloads| ==> |payloads[i]| <= MAX_FRAME_BYTES
  }

  function FrameAll(payloads: seq<seq<byte>>): seq<byte> {
    if |payloads| == 0 then [] else Frame(payloads[0]) + FrameAll(payloads[1..])
  }

  /** Reads until a read fails: the payloads read, the error, and the bytes left. */
  function DecodeAll(stream: seq<byte>): (r: (seq<seq<byte>>, ReadError))
    decreases |stream|
  {
    var (r, rest) := Decode(stream);
    if r.Failed? then ([], r.error)
    else
      var (more, e) := DecodeAll(rest);
      ([r.bytes] + more, e)
  }

  lemma DecodeOfFrame(payload: seq<byte>, rest: seq<byte>)
    requires |payload| <= MAX_FRAME_BYTES
    ensures Decode(Frame(payload) + rest) == (Payload(payload), rest)
  {
    var s := Frame(payload) + rest;
    Pow256Values();
    BeRoundTrip(|payload|, 4);
    assert s[..4] == ToBe(|payload|, 4);
    assert s[4..4 + |payload|] == payload;
    assert s[4 + |payload|..] == rest;
  }

  /** A frame that is cut short anywhere is an end-of-stream error. */
  lemma DecodeOfCutFrame(payload: seq<byte>, k: nat)
    requires |payload| <= MAX_FRAME_BYTES && k < |Frame(payload)|
    ensures Decode(Frame(payload)[..k]) == (Failed(UnexpectedEof), [])
  {
    if k >= 4 {
      Pow256Values();
      BeRoundTrip(|payload|, 4);
      assert Frame(payload)[..k][..4] == ToBe(|payload|, 4);
    }
  }

  lemma DecodeAllOfFrame(payload: seq<byte>, rest: seq<byte>)
    requires |payload| <= MAX_FRAME_BYTES
    ensures DecodeAll(Frame(payload) + rest) == ([payload] + DecodeAll(rest).0, DecodeAll(rest).1)
  {
    DecodeOfFrame(payload, rest);
    hide Frame, Decode;
  }

  lemma DecodeAllOfNothing()
    ensures DecodeAll([]) == ([], UnexpectedEof)
  {
  }

  /** Everything written comes back, in order and undivided, then the stream ends. */
  lemma {:induction false} RunsRoundTrip(payloads: seq<seq<byte>>)
    requires Sendable(payloads)
    ensures DecodeAll(FrameAll(payloads)) == (payloads, UnexpectedEof)
  {
    hide Frame, Decode, DecodeAll;
    if |payloads| == 0 {
      DecodeAllOfNothing();
    } else {
      DecodeAllOfFrame(payloads[0], FrameAll(payloads[1..]));
      RunsRoundTrip(payloads[1..]);
      assert payloads == [payloads[0]] + payloads[1..];
    }
  }

  /** A run cut short decodes to a proper prefix of what was written and then fails. */
  lemma {:induction false} CutRunsGivePrefixes(payloads: seq<seq<byte>>, k: nat)
    requires Sendable(payloads) && k < |FrameAll(payloads)|
    ensures DecodeAll(FrameAll(payloads)[..k]).1 == UnexpectedEof
    ensures DecodeAll(FrameAll(payloads)[..k]).0 < payloads
  {
    hide Frame, Decode;
    var first, rest := Frame(payloads[0]), FrameAll(payloads[1..]);
    if k < |first| {
      assert FrameAll(payloads)[..k] == first[..k];
      DecodeOfCutFrame(payloads[0], k);
    } else {
      assert FrameAll(payloads)[..k] == first + rest[..k - |first|];
      DecodeOfFrame(payloads[0], rest[..k - |first|]);
      if k - |first| < |rest| {
        CutRunsGivePrefixes(payloads[1..], k - |first|);
      }
      assert payloads == [payloads[0]] + payloads[1..];
    }
  }

  /** The framing is unambiguous: different runs never share their bytes. */
  lemma FramingIsInjective(a: seq<seq<byte>>, b: seq<seq<byte>>)
    requires Sendable(a) && Sendable(b) && FrameAll(a) == FrameAll(b)
    ensures a == b
  {
    RunsRoundTrip(a);
    RunsRoundTrip(b);
  }

  /** A declared length over the cap is refused with the body still unread. */
  lemma OversizedIsRefused(len: nat, body: seq<byte>)
    requires MAX_FRAME_BYTES < len < 0x1_0000_0000
    ensures Decode(ToBe(len, 4) + body) == (Failed(OversizedFrame), body)
  {
    Pow256Values();
    BeRoundTrip(len, 4);
    assert (ToBe(len, 4) + body)[..4] == ToBe(len, 4);
    assert (ToBe(len, 4) + body)[4..] == body;
  }

  lemma FrameAllUnfolds(payloads: seq<seq<byte>>)
    requires |payloads| > 0
    ensures FrameAll(payloads) == Frame(payloads[0]) + FrameAll(payloads[1..])
  {
  }

  lemma {:induction false} FrameAllSnoc(payloads: seq<seq<byte>>, p: seq<byte>)
    ensures FrameAll(payloads + [p]) == FrameAll(payloads) + Frame(p)
  {
    hide Frame, FrameAll;
    NoFrames();
    FrameAllUnfolds(payloads + [p]);
    if |payloads| == 0 {
      assert (payloads + [p])[1..] == [] == payloads;
      assert Frame(p) + [] == [] + Frame(p);
    } else {
      FrameAllUnfolds(payloads);
      FrameAllSnoc(payloads[1..], p);
      assert (payloads + [p])[1..] == payloads[1..] + [p];
      var f, g, h := Frame(payloads[0]), FrameAll(payloads[1..]), Frame(p);
      assert f + (g + h) == (f + g) + h;
    }
  }

  /** The bytes between writer and reader behave as a FIFO queue of payloads: a write
      appends at the back, a read takes the front. */
  lemma BytesFormAQueue(queue: seq<seq<byte>>, p: seq<byte>)
    requires Sendable(queue)
    ensures FrameAll(queue) + Frame(p) == FrameAll(queue + [p])
    ensures |queue| > 0 ==> Decode(FrameAll(queue)) == (Payload(queue[0]), FrameAll(queue[1..]))
    ensures |queue| == 0 ==> Decode(FrameAll(queue)) == (Failed(UnexpectedEof), [])
  {
    FrameAllSnoc(queue, p);
    if |queue| > 0 {
      DecodeOfFrame(queue[0], FrameAll(queue[1..]));
    }
  }

  /** How many payloads go out before one is over the cap. */
  function SentCount(payloads: seq<seq<byte>>): (n: nat)
    ensures n <= |payloads|
    ensures Sendable(payloads[..n])
    ensures n < |payloads| ==> |payloads[n]| > MAX_FRAME_BYTES
  {
    if |payloads| == 0 || |payloads[0]| > MAX_FRAME_BYTES then 0
    else
      var n := 1 + SentCount(payloads[1..]);
      assert forall i :: 1 <= i < n ==> payloads[..n][i] == payloads[1..][..n - 1][i - 1];
      n
  }

  lemma SentCountIs(payloads: seq<seq<byte>>, n: nat)
    requires n <= |payloads| && Sendable(payloads[..n])
    requires n < |payloads| ==> |payloads[n]| > MAX_FRAME_BYTES
    ensures SentCount(payloads) == n
  {
    var m := SentCount(payloads);
    assert forall i :: 0 <= i < m ==> payloads[..m][i] == payloads[i];
    assert forall i :: 0 <= i < n ==> payloads[..n][i] == payloads[i];
  }

  lemma NoFrames()
    ensures FrameAll([]) == []
  {
  }

  /** The frames of the payloads before the first that is over the cap. */
  function SentBytes(payloads: seq<seq<byte>>): seq<byte> {
    FrameAll(payloads[..SentCount(payloads)])
  }

  /** What a stream holds after `out` was written to it. */
  ghost predicate Grown(before: seq<byte>, out: seq<byte>, bytes: seq<byte>) {
    bytes == before + out
  }

  lemma GrownBy(before: seq<byte>, out: seq<byte>, bytes: seq<byte>, more: seq<byte>)
    requires Grown(before, out, bytes)
    ensures Grown(before, out + more, bytes + more)
  {
  }

  lemma GrownIs(before: seq<byte>, out: seq<byte>, bytes: seq<byte>)
    requires Grown(before, out, bytes)
    ensures bytes == before + out
  {
  }

  lemma NotGrown(before: seq<byte>)
    ensures Grown(before, [], before)
  {
  }

  /** These bytes are the frames of the first k payloads, none of which is over the cap. */
  ghost predicate Sent(payloads: seq<seq<byte>>, k: nat, bytes: seq<byte>) {
    k <= |payloads| && Sendable(payloads[..k]) && bytes == FrameAll(payloads[..k])
  }

  lemma NothingSent(payloads: seq<seq<byte>>)
    ensures Sent(payloads, 0, [])
  {
    NoFrames();
    assert payloads[..0] == [];
  }

  lemma OneMoreSent(payloads: seq<seq<byte>>, k: nat, bytes: seq<byte>)
    requires Sent(payloads, k, bytes) && k < |payloads| && |payloads[k]| <= MAX_FRAME_BYTES
    ensures Sent(payloads, k + 1, bytes + Frame(payloads[k]))
  {
    hide Frame, FrameAll;
    assert payloads[..k + 1] == payloads[..k] + [payloads[k]];
    FrameAllSnoc(payloads[..k], payloads[k]);
  }

  lemma RefusedThere(payloads: seq<seq<byte>>, k: nat, bytes: seq<byte>)
    requires Sent(payloads, k, bytes) && k < |payloads| && |payloads[k]| > MAX_FRAME_BYTES
    ensures !Sendable(payloads) && bytes == SentBytes(payloads)
  {
    hide Frame, FrameAll;
    SentCountIs(payloads, k);
  }

  lemma AllSent(payloads: seq<seq<byte>>, bytes: seq<byte>)
    requires Sent(payloads, |payloads|, bytes)
    ensures Sendable(payloads) && bytes == SentBytes(payloads)
  {
    hide Frame, FrameAll;
    assert payloads[..|payloads|] == payloads;
    SentCountIs(payloads, |payloads|);
  }

  /** Writes messages until one is refused. */
  method SendAll(s: ByteStream, payloads: seq<seq<byte>>) returns (ok: bool)
    modifies s
    ensures ok <==> Sendable(payloads)
    ensures s.bytes == old(s.bytes) + SentBytes(payloads)
  {
    hide Frame, SentBytes, Sendable, Sent, Grown;
    NothingSent(payloads);
    NotGrown(s.bytes);
    var k := 0;
    ghost var out := [];
    while k < |payloads|
      invariant k <= |payloads| && Sent(payloads, k, out) && Grown(old(s.bytes), out, s.bytes)
    {
      ghost var before := s.bytes;
      ok := s.WriteMsg(payloads[k]);
      if !ok {
        RefusedThere(payloads, k, out);
        GrownIs(old(s.bytes), out, s.bytes);
        return;
      }
      OneMoreSent(payloads, k, out);
      GrownBy(old(s.bytes), out, before, Frame(payloads[k]));
      out := out + Frame(payloads[k]);
      k := k + 1;
    }
    AllSent(payloads, out);
    GrownIs(old(s.bytes), out, s.bytes);
    ok := true;
  }

  /** Reads messages until a read fails. */
  method ReceiveAll(s: ByteStream) returns (received: seq<seq<byte>>, error: ReadError)
    modifies s
    ensures (received, error) == DecodeAll(old(s.bytes))
  {
    hide Decode;
    ghost var all := DecodeAll(s.bytes);
    received := [];
    while true
      invariant all.0 == received + DecodeAll(s.bytes).0
      invariant all.1 == DecodeAll(s.bytes).1
      decreases |s.bytes|
    {
      DecodeShrinks(s.bytes);
      assert forall p, more :: received + ([p] + more) == received + [p] + more;
      var r := s.ReadMsg();
      if r.Failed? {
        assert received + [] == received;
        return received, r.error;
      }
      received := received + [r.bytes];
    }
  }

  lemma DecodeShrinks(stream: seq<byte>)
    ensures Decode(stream).0.Payload? ==> |Decode(stream).1| < |stream|
  {
  }

  /** A whole conversation in one direction: what is received is exactly what could be
      sent, followed by the end of the stream. */
  method SendAndReceive(payloads: seq<seq<byte>>) returns (received: seq<seq<byte>>, error: ReadError)
    ensures received == payloads[..SentCount(payloads)] && error == UnexpectedEof
    ensures Sendable(payloads) ==> received == payloads
  {
    hide FrameAll, DecodeAll, SentCount;
    var s := new ByteStream();
    var _ := SendAll(s, payloads);
    RunsRoundTrip(payloads[..SentCount(payloads)]);
    assert s.bytes == FrameAll(payloads[..SentCount(payloads)]);
    received, error := ReceiveAll(s);
    if Sendable(payloads) {
      assert payloads[..|payloads|] == payloads;
      SentCountIs(payloads, |payloads|);
    }
  }
}
