/** The composed session of `SessionPair` run over two byte streams with the framing of
    `Framing`. Bytes are pushed and taken in arbitrary pieces, so parts of frames are in
    flight at any time, and a write that fails leaves the part it has pushed. */
module SessionWire {
  import opened Bytes
  import opened Framing
  import opened Session
  import opened SessionPair

  // ---- The wire -------------------------------------------------------------------

  /** The payload codec, which is not the repository's own code: any pair of functions. */
  datatype Codec = Codec(encode: Msg -> seq<byte>, decode: seq<byte> -> Option<Msg>)

  predicate RoundTrips(codec: Codec, m: Msg) {
    codec.decode(codec.encode(m)) == Some(m)
  }

  predicate Fits(codec: Codec, m: Msg) {
    |codec.encode(m)| <= MAX_FRAME_BYTES
  }

  function FrameOf(codec: Codec, m: Msg): seq<byte> {
    Frame(codec.encode(m))
  }

  datatype Side = ClientSide | ServerSide

  /** What a writer is at: nothing, a message with `rest` of its frame still to be pushed,
      or a message it gave up on with `rest` never pushed. */
  datatype Writing = Idle | Pushing(msg: Msg, rest: seq<byte>) | Broken(msg: Msg, rest: seq<byte>)

  /** One direction: the bytes the reader took but has not made a message of, the bytes in
      flight, and what the writer is at. */
  datatype Lane = Lane(taken: seq<byte>, flight: seq<byte>, writing: Writing)

  datatype Wire = Wire(client: ClientPc, server: ServerPc, up: Lane, down: Lane)

  const QUIET_LANE := Lane([], [], Idle)

  const QUIET := Wire(SendHello, AwaitHello, QUIET_LANE, QUIET_LANE)

  function Out(w: Wire, side: Side): Lane {
    if side.ClientSide? then w.up else w.down
  }

  function In(w: Wire, side: Side): Lane {
    if side.ClientSide? then w.down else w.up
  }

  function WithOut(w: Wire, side: Side, lane: Lane): Wire {
    if side.ClientSide? then w.(up := lane) else w.(down := lane)
  }

  function WithIn(w: Wire, side: Side, lane: Lane): Wire {
    if side.ClientSide? then w.(down := lane) else w.(up := lane)
  }

  function By(side: Side, e: Event): Action {
    if side.ClientSide? then ByClient(e) else ByServer(e)
  }

  /** What one side can do, and what else can happen to it. */
  datatype WireAction =
    | Begin(side: Side, msg: Msg)      // starts to write a message
    | Refuse(side: Side, msg: Msg)     // refuses to write a message over the cap
    | Push(side: Side, n: nat)         // n more bytes go out; with the last the write returns
    | Take(side: Side, n: nat)         // n more bytes come in
    | Eof(side: Side)                  // finds that the peer is gone and nothing more can come
    | Do(side: Side, e: Event)         // every other event, failures included

  /** How many bytes the reader wants in all, given those it took: the length prefix first,
      then the body it declares. */
  function Wanted(taken: seq<byte>): nat {
    if |taken| < 4 then 4 else 4 + FromBe(taken[..4])
  }

  predicate Oversized(taken: seq<byte>) {
    |taken| >= 4 && FromBe(taken[..4]) > MAX_FRAME_BYTES
  }

  predicate Complete(taken: seq<byte>) {
    |taken| >= 4 && !Oversized(taken) && |taken| == Wanted(taken)
  }

  function Message(codec: Codec, taken: seq<byte>): Option<Msg> {
    if Complete(taken) then codec.decode(taken[4..]) else None
  }

  /** A side moves on in its own machine; the lanes stay. */
  function Move(setup: Setup, w: Wire, side: Side, e: Event): Option<Wire> {
    match side
    case ClientSide =>
      var next := ClientStep(setup.neg, setup.version, w.client, e);
      if next.None? then None else Some(w.(client := next.value))
    case ServerSide =>
      var next := ServerStep(w.server, e);
      if next.None? || (e.Wrote? && !IsItsReport(setup, e.msg)) then None else Some(w.(server := next.value))
  }

  predicate Reading(w: Wire, side: Side) {
    if side.ClientSide? then ClientReading(w.client) else ServerReading(w.server)
  }

  predicate PeerGone(w: Wire, side: Side) {
    if side.ClientSide? then ServerDone(w.server) else ClientReadsNoMore(w.client)
  }

  predicate GaveUp(w: Wire, side: Side) {
    if side.ClientSide? then w.client.Failed? else w.server.Aborted?
  }

  function Pushed(lane: Lane, n: nat): Lane
    requires lane.writing.Pushing? && n <= |lane.writing.rest|
  {
    var rest := lane.writing.rest;
    Lane(lane.taken, lane.flight + rest[..n],
      if n == |rest| then Idle else Pushing(lane.writing.msg, rest[n..]))
  }

  function WireStep(codec: Codec, setup: Setup, w: Wire, a: WireAction): Option<Wire> {
    var side := a.side;
    var (out, inn) := (Out(w, side), In(w, side));
    match a
    case Begin(_, m) =>
      if out.writing.Idle? && Move(setup, w, side, Wrote(m)).Some? && Fits(codec, m)
      then Some(WithOut(w, side, out.(writing := Pushing(m, FrameOf(codec, m))))) else None
    case Refuse(_, m) =>
      if out.writing.Idle? && Move(setup, w, side, Wrote(m)).Some? && !Fits(codec, m)
      then Move(setup, w, side, WriteFailed) else None
    case Push(_, n) =>
      if !out.writing.Pushing? || !(0 < n <= |out.writing.rest|) then None
      else
        var pushed := WithOut(w, side, Pushed(out, n));
        if n < |out.writing.rest| then Some(pushed)
        else Move(setup, pushed, side, Wrote(out.writing.msg))
    case Take(_, n) =>
      if Reading(w, side) && !Oversized(inn.taken) && 0 < n <= |inn.flight| && |inn.taken| + n <= Wanted(inn.taken)
      then Some(WithIn(w, side, inn.(taken := inn.taken + inn.flight[..n], flight := inn.flight[n..]))) else None
    case Eof(_) =>
      if PeerGone(w, side) && inn.flight == [] && |inn.taken| < Wanted(inn.taken)
      then Move(setup, w, side, ReadFailed) else None
    case Do(_, Got(m)) =>
      if Message(codec, inn.taken) == Some(m)
      then Move(setup, WithIn(w, side, inn.(taken := [])), side, Got(m)) else None
    case Do(_, Wrote(_)) => None
    case Do(_, WriteFailed) =>
      var left := if out.writing.Pushing? then Broken(out.writing.msg, out.writing.rest) else out.writing;
      Move(setup, WithOut(w, side, out.(writing := left)), side, WriteFailed)
    case Do(_, e) => Move(setup, w, side, e)
  }

  function WireRun(codec: Codec, setup: Setup, actions: seq<WireAction>): Option<Wire> {
    if |actions| == 0 then Some(QUIET)
    else
      var w := WireRun(codec, setup, actions[..|actions| - 1]);
      if w.None? then None else WireStep(codec, setup, w.value, actions[|actions| - 1])
  }

  /** The messages of this session. */
  ghost predicate Scripted(setup: Setup, m: Msg) {
    exists k: nat :: ClientMsg(setup, k, m) || ServerMsg(setup, k, m)
  }

  /** What is asked of the codec: the messages of the session come back. */
  ghost predicate Faithful(codec: Codec, setup: Setup) {
    forall m :: Scripted(setup, m) ==> RoundTrips(codec, m)
  }

  /** What an action over bytes is over queues, if it is anything: a message is written
      when its last byte is out. */
  function Shown(w: Wire, a: WireAction): Option<Action> {
    match a
    case Push(side, n) =>
      var writing := Out(w, side).writing;
      if writing.Pushing? && n == |writing.rest| then Some(By(side, Wrote(writing.msg))) else None
    case Refuse(side, _) => Some(By(side, WriteFailed))
    case Eof(side) => Some(By(side, ReadFailed))
    case Do(side, e) => Some(By(side, e))
    case _ => None
  }

  /** What a run over bytes is over queues. */
  function ShownRun(codec: Codec, setup: Setup, actions: seq<WireAction>): seq<Action> {
    if |actions| == 0 then []
    else
      var front, a := actions[..|actions| - 1], actions[|actions| - 1];
      var w := WireRun(codec, setup, front);
      var shown := if w.None? then None else Shown(w.value, a);
      ShownRun(codec, setup, front) + (if shown.Some? then [shown.value] else [])
  }

  /** A message goes out in any two pieces, and a write that fails between them leaves the
      first one in flight. */
  lemma WritesCanBreak(codec: Codec, setup: Setup, w: Wire, side: Side, m: Msg, k: nat)
    requires Out(w, side).writing.Idle? && Move(setup, w, side, Wrote(m)).Some? && Fits(codec, m)
    requires 0 < k < |FrameOf(codec, m)|
    ensures
      var begun := WireStep(codec, setup, w, Begin(side, m));
      var half := if begun.None? then None else WireStep(codec, setup, begun.value, Push(side, k));
      var broken := if half.None? then None else WireStep(codec, setup, half.value, Do(side, WriteFailed));
      && half.Some? && Out(half.value, side).flight == Out(w, side).flight + FrameOf(codec, m)[..k]
      && broken.Some? && Out(broken.value, side).flight == Out(half.value, side).flight && GaveUp(broken.value, side)
  {
    hide FrameOf;
  }

  /** A reader takes what is in flight in any pieces, up to the end of the prefix and then
      up to the end of the body. */
  lemma ReadsInAnyPieces(codec: Codec, setup: Setup, w: Wire, side: Side, k: nat)
    requires Reading(w, side) && !Oversized(In(w, side).taken)
    requires 0 < k <= |In(w, side).flight| && |In(w, side).taken| + k <= Wanted(In(w, side).taken)
    ensures
      var next, lane := WireStep(codec, setup, w, Take(side, k)), In(w, side);
      && next.Some?
      && In(next.value, side).taken == lane.taken + lane.flight[..k]
      && In(next.value, side).flight == lane.flight[k..]
  {
  }

  /** No piece is empty, and past an oversized length nothing is taken at all. */
  lemma NoSuchPieces(codec: Codec, setup: Setup, w: Wire, side: Side, k: nat)
    ensures WireStep(codec, setup, w, Push(side, 0)).None? && WireStep(codec, setup, w, Take(side, 0)).None?
    ensures |In(w, side).taken| >= 4 && FromBe(In(w, side).taken[..4]) > 65536 ==>
      WireStep(codec, setup, w, Take(side, k)).None?
  {
  }

  // ---- What the bytes amount to ---------------------------------------------------

  predicate CarriesAll(codec: Codec, queue: seq<Msg>) {
    forall i :: 0 <= i < |queue| ==> RoundTrips(codec, queue[i]) && Fits(codec, queue[i])
  }

  function Encoded(codec: Codec, queue: seq<Msg>): (r: seq<seq<byte>>)
    ensures |r| == |queue|
  {
    seq(|queue|, i requires 0 <= i < |queue| => codec.encode(queue[i]))
  }

  /** The bytes that a queue of messages amounts to. */
  function OnWire(codec: Codec, queue: seq<Msg>): seq<byte> {
    FrameAll(Encoded(codec, queue))
  }

  /** What is still to be pushed is a non-empty end of the frame. */
  predicate WritingFits(codec: Codec, writing: Writing) {
    !writing.Idle? ==>
      var f := FrameOf(codec, writing.msg);
      && RoundTrips(codec, writing.msg) && Fits(codec, writing.msg)
      && 0 < |writing.rest| <= |f| && f[|f| - |writing.rest|..] == writing.rest
  }

  /** The part already pushed of a frame not wholly pushed. */
  function Partial(codec: Codec, writing: Writing): seq<byte>
    requires WritingFits(codec, writing)
  {
    if writing.Idle? then []
    else
      var f := FrameOf(codec, writing.msg);
      f[..|f| - |writing.rest|]
  }

  /** The bytes before the reader are the frames of the messages in flight and then the
      proper prefix of at most one more. */
  predicate LaneHolds(codec: Codec, queue: seq<Msg>, lane: Lane) {
    && CarriesAll(codec, queue) && WritingFits(codec, lane.writing)
    && lane.taken + lane.flight == OnWire(codec, queue) + Partial(codec, lane.writing)
    && |lane.taken| <= Wanted(lane.taken)
  }

  /** That prefix belongs to the message its writer is writing, or gave up on. */
  predicate WriterHolds(setup: Setup, w: Wire, side: Side) {
    match Out(w, side).writing
    case Idle => true
    case Pushing(m, _) => Move(setup, w, side, Wrote(m)).Some?
    case Broken(_, _) => GaveUp(w, side)
  }

  predicate Matches(codec: Codec, setup: Setup, s: System, w: Wire) {
    && s.client == w.client && s.server == w.server
    && LaneHolds(codec, s.c2s, w.up) && LaneHolds(codec, s.s2c, w.down)
    && WriterHolds(setup, w, ClientSide) && WriterHolds(setup, w, ServerSide)
    && (w.server.Finished? ==> Fits(codec, Result(setup.report)))
  }

  /** The first read off such bytes yields the front message and leaves the others and the
      prefix; with no whole message there it is an end of stream, never anything else. */
  lemma DecodeInFlight(codec: Codec, queue: seq<Msg>, writing: Writing)
    requires CarriesAll(codec, queue) && WritingFits(codec, writing)
    ensures Decode(OnWire(codec, queue) + Partial(codec, writing)) ==
      if |queue| == 0 then (ReadResult.Failed(UnexpectedEof), [])
      else (Payload(codec.encode(queue[0])), OnWire(codec, queue[1..]) + Partial(codec, writing))
  {
    hide Decode, Frame;
    var partial := Partial(codec, writing);
    if |queue| == 0 {
      NoFrames();
      assert OnWire(codec, queue) + partial == partial;
      if writing.Idle? {
        BytesFormAQueue([], []);
      } else {
        DecodeOfCutFrame(codec.encode(writing.msg), |partial|);
      }
    } else {
      var rest := OnWire(codec, queue[1..]);
      assert Encoded(codec, queue)[1..] == Encoded(codec, queue[1..]);
      DecodeOfFrame(codec.encode(queue[0]), rest + partial);
      assert OnWire(codec, queue) + partial == Frame(codec.encode(queue[0])) + (rest + partial);
    }
  }

  /** A complete frame taken decodes to itself, whatever is behind it. */
  lemma DecodeOfTaken(taken: seq<byte>, flight: seq<byte>)
    ensures Complete(taken) ==> Decode(taken + flight) == (Payload(taken[4..]), flight)
    ensures !Complete(taken) && |taken| <= Wanted(taken) && Decode(taken + flight).0.Payload? ==>
      !Oversized(taken) && |taken| + 1 <= Wanted(taken) && |flight| > 0
    ensures Oversized(taken) ==> Decode(taken + flight).0 == ReadResult.Failed(OversizedFrame)
  {
    var bytes := taken + flight;
    if |taken| >= 4 {
      assert bytes[..4] == taken[..4];
    }
    if Complete(taken) {
      assert bytes[4..|taken|] == taken[4..];
      assert bytes[|taken|..] == flight;
    }
  }

  // ---- Every run over bytes is a run over queues ----------------------------------

  function OutQueue(s: System, side: Side): seq<Msg> {
    if side.ClientSide? then s.c2s else s.s2c
  }

  function InQueue(s: System, side: Side): seq<Msg> {
    if side.ClientSide? then s.s2c else s.c2s
  }

  lemma SendIsBack(codec: Codec, queue: seq<Msg>, m: Msg)
    requires CarriesAll(codec, queue) && RoundTrips(codec, m) && Fits(codec, m)
    ensures OnWire(codec, queue) + FrameOf(codec, m) == OnWire(codec, queue + [m])
    ensures CarriesAll(codec, queue + [m])
  {
    hide Frame, Decode;
    BytesFormAQueue(Encoded(codec, queue), codec.encode(m));
    assert Encoded(codec, queue + [m]) == Encoded(codec, queue) + [codec.encode(m)];
  }

  lemma BeginHolds(codec: Codec, queue: seq<Msg>, lane: Lane, m: Msg)
    requires LaneHolds(codec, queue, lane) && lane.writing.Idle? && RoundTrips(codec, m) && Fits(codec, m)
    ensures LaneHolds(codec, queue, lane.(writing := Pushing(m, FrameOf(codec, m))))
  {
    hide Wanted, OnWire;
    var f := FrameOf(codec, m);
    assert f[|f| - |f|..] == f && f[..0] == [];
  }

  lemma PushedBytes(codec: Codec, queue: seq<Msg>, lane: Lane, n: nat)
    requires LaneHolds(codec, queue, lane) && lane.writing.Pushing? && n <= |lane.writing.rest|
    ensures
      var f := FrameOf(codec, lane.writing.msg);
      var k := |f| - |lane.writing.rest| + n;
      && lane.taken + Pushed(lane, n).flight == OnWire(codec, queue) + f[..k]
      && lane.writing.rest[n..] == f[k..]
  {
    hide Wanted, OnWire, CarriesAll, Frame;
    var m, rest := lane.writing.msg, lane.writing.rest;
    var f := FrameOf(codec, m);
    var k := |f| - |rest|;
    assert f[..k] + rest[..n] == f[..k + n];
    assert lane.taken + (lane.flight + rest[..n]) == (lane.taken + lane.flight) + rest[..n];
    assert (OnWire(codec, queue) + f[..k]) + rest[..n] == OnWire(codec, queue) + (f[..k] + rest[..n]);
  }

  lemma PushHolds(codec: Codec, queue: seq<Msg>, lane: Lane, n: nat)
    requires LaneHolds(codec, queue, lane) && lane.writing.Pushing? && n <= |lane.writing.rest|
    ensures LaneHolds(codec, if n == |lane.writing.rest| then queue + [lane.writing.msg] else queue, Pushed(lane, n))
  {
    hide Wanted, OnWire, CarriesAll, Frame;
    var f := FrameOf(codec, lane.writing.msg);
    PushedBytes(codec, queue, lane, n);
    if n == |lane.writing.rest| {
      SendIsBack(codec, queue, lane.writing.msg);
      assert f[..|f|] == f;
      assert OnWire(codec, queue + [lane.writing.msg]) + [] == OnWire(codec, queue + [lane.writing.msg]);
    }
  }

  lemma TakeHolds(codec: Codec, queue: seq<Msg>, lane: Lane, n: nat)
    requires LaneHolds(codec, queue, lane) && n <= |lane.flight| && |lane.taken| + n <= Wanted(lane.taken)
    ensures LaneHolds(codec, queue, lane.(taken := lane.taken + lane.flight[..n], flight := lane.flight[n..]))
  {
    hide OnWire, CarriesAll, WritingFits, Partial;
    var taken := lane.taken + lane.flight[..n];
    assert taken + lane.flight[n..] == lane.taken + lane.flight;
    if |lane.taken| >= 4 {
      assert taken[..4] == lane.taken[..4];
    }
  }

  /** A message made of the bytes taken is the front of the queue. */
  lemma GotIsFront(codec: Codec, queue: seq<Msg>, lane: Lane, m: Msg)
    requires LaneHolds(codec, queue, lane) && Message(codec, lane.taken) == Some(m)
    ensures |queue| > 0 && queue[0] == m && LaneHolds(codec, queue[1..], lane.(taken := []))
  {
    hide OnWire, Decode, WritingFits, Partial, Complete;
    DecodeInFlight(codec, queue, lane.writing);
    DecodeOfTaken(lane.taken, lane.flight);
    assert [] + lane.flight == lane.flight;
  }

  /** A side that can do anything but write is not in the middle of a write. */
  lemma NotWriting(setup: Setup, w: Wire, side: Side, e: Event)
    requires WriterHolds(setup, w, side) && Move(setup, w, side, e).Some? && !e.Wrote? && !e.WriteFailed?
    ensures Out(w, side).writing.Idle?
  {
  }

  /** A side finishes by writing its Result only, and gives up where a write fails. */
  lemma WaysToEnd(setup: Setup, w: Wire, side: Side, e: Event)
    requires Move(setup, w, side, e).Some?
    ensures e.WriteFailed? ==> GaveUp(Move(setup, w, side, e).value, side)
    ensures !w.server.Finished? && Move(setup, w, side, e).value.server.Finished? ==>
      side.ServerSide? && e == Wrote(Result(setup.report))
    ensures !GaveUp(w, side)
  {
  }

  lemma OtherEventHolds(codec: Codec, setup: Setup, s: System, w: Wire, side: Side, e: Event)
    requires Matches(codec, setup, s, w) && Move(setup, w, side, e).Some?
    requires !e.Got? && !e.Wrote? && !e.WriteFailed?
    ensures Step(setup, s, By(side, e)).Some?
    ensures Matches(codec, setup, Step(setup, s, By(side, e)).value, Move(setup, w, side, e).value)
  {
    hide LaneHolds, ClientStep, ServerStep;
    NotWriting(setup, w, side, e);
    WaysToEnd(setup, w, side, e);
  }

  /** A write that fails leaves what it pushed, and nothing follows it. */
  lemma FailedWriteHolds(codec: Codec, setup: Setup, s: System, w: Wire, side: Side)
    requires Matches(codec, setup, s, w) && Move(setup, w, side, WriteFailed).Some?
    ensures Step(setup, s, By(side, WriteFailed)).Some?
    ensures Matches(codec, setup, Step(setup, s, By(side, WriteFailed)).value,
      WireStep(codec, setup, w, Do(side, WriteFailed)).value)
  {
    hide LaneHolds, ClientStep, ServerStep;
    WaysToEnd(setup, w, side, WriteFailed);
    if Out(w, side).writing.Pushing? {
      BreakHolds(codec, OutQueue(s, side), Out(w, side));
    }
  }

  lemma BreakHolds(codec: Codec, queue: seq<Msg>, lane: Lane)
    requires LaneHolds(codec, queue, lane) && lane.writing.Pushing?
    ensures LaneHolds(codec, queue, lane.(writing := Broken(lane.writing.msg, lane.writing.rest)))
  {
  }

  lemma GotHolds(codec: Codec, setup: Setup, s: System, w: Wire, side: Side, m: Msg)
    requires Matches(codec, setup, s, w) && WireStep(codec, setup, w, Do(side, Got(m))).Some?
    ensures Step(setup, s, By(side, Got(m))).Some?
    ensures Matches(codec, setup, Step(setup, s, By(side, Got(m))).value,
      WireStep(codec, setup, w, Do(side, Got(m))).value)
  {
    hide LaneHolds, ClientStep, ServerStep, Message;
    NotWriting(setup, w, side, Got(m));
    WaysToEnd(setup, w, side, Got(m));
    GotIsFront(codec, InQueue(s, side), In(w, side), m);
  }

  lemma MessageFits(codec: Codec, queue: seq<Msg>, lane: Lane)
    requires LaneHolds(codec, queue, lane) && !lane.writing.Idle?
    ensures Fits(codec, lane.writing.msg)
  {
  }

  /** One action over bytes is one step over queues, or none. */
  lemma StepIsShown(codec: Codec, setup: Setup, s: System, w: Wire, a: WireAction)
    requires Matches(codec, setup, s, w) && (a.Begin? ==> RoundTrips(codec, a.msg))
    requires WireStep(codec, setup, w, a).Some?
    ensures
      var t := WireStep(codec, setup, w, a).value;
      match Shown(w, a)
      case None => Matches(codec, setup, s, t)
      case Some(b) => Step(setup, s, b).Some? && Matches(codec, setup, Step(setup, s, b).value, t)
  {
    hide LaneHolds, Message, Wanted, Oversized, ClientStep, ServerStep;
    match a {
      case Begin(side, m) => BeginHolds(codec, OutQueue(s, side), Out(w, side), m);
      case Push(side, n) =>
        PushHolds(codec, OutQueue(s, side), Out(w, side), n);
        WaysToEnd(setup, w, side, Wrote(Out(w, side).writing.msg));
        MessageFits(codec, OutQueue(s, side), Out(w, side));
      case Take(side, n) => TakeHolds(codec, InQueue(s, side), In(w, side), n);
      case Refuse(side, _) => FailedWriteHolds(codec, setup, s, w, side);
      case Eof(side) => OtherEventHolds(codec, setup, s, w, side, ReadFailed);
      case Do(side, Got(m)) => GotHolds(codec, setup, s, w, side, m);
      case Do(side, WriteFailed) => FailedWriteHolds(codec, setup, s, w, side);
      case Do(side, Wrote(_)) =>
      case Do(side, e) => OtherEventHolds(codec, setup, s, w, side, e);
    }
  }

  lemma WritesAreScripted(setup: Setup, s: System, side: Side, m: Msg)
    requires Ordered(setup, s) && Step(setup, s, By(side, Wrote(m))).Some?
    ensures Scripted(setup, m)
  {
    match side {
      case ClientSide => assert ClientMsg(setup, ClientWrites(s.client), m);
      case ServerSide => assert ServerMsg(setup, ServerWrites(s.server), m);
    }
  }

  lemma MoveIsStep(codec: Codec, setup: Setup, s: System, w: Wire, side: Side, m: Msg)
    requires Matches(codec, setup, s, w) && Move(setup, w, side, Wrote(m)).Some?
    ensures Step(setup, s, By(side, Wrote(m))).Some?
  {
    hide LaneHolds;
  }

  lemma QuietMatches(codec: Codec, setup: Setup)
    ensures Matches(codec, setup, INITIAL, QUIET)
  {
  }

  lemma ShownSnoc(codec: Codec, setup: Setup, actions: seq<WireAction>, a: WireAction)
    requires WireRun(codec, setup, actions).Some?
    ensures
      var w := WireRun(codec, setup, actions).value;
      && WireRun(codec, setup, actions + [a]) == WireStep(codec, setup, w, a)
      && ShownRun(codec, setup, actions + [a]) ==
        ShownRun(codec, setup, actions) + (if Shown(w, a).Some? then [Shown(w, a).value] else [])
  {
    assert (actions + [a])[..|actions|] == actions;
  }

  lemma RunSnoc(setup: Setup, run: seq<Action>, b: Action)
    requires SessionPair.Run(setup, run).Some?
    ensures SessionPair.Run(setup, run + [b]) == Step(setup, SessionPair.Run(setup, run).value, b)
  {
    assert (run + [b])[..|run|] == run;
  }

  /** Every run over bytes, whatever fails in it, is a run over queues, and the bytes not
      yet made into messages are at any time the frames of the messages in flight and then
      a proper prefix of the one frame being written or given up on. */
  lemma {:induction false} RunOverWire(codec: Codec, setup: Setup, actions: seq<WireAction>)
    requires Faithful(codec, setup) && WireRun(codec, setup, actions).Some?
    ensures SessionPair.Run(setup, ShownRun(codec, setup, actions)).Some?
    ensures Matches(codec, setup,
      SessionPair.Run(setup, ShownRun(codec, setup, actions)).value, WireRun(codec, setup, actions).value)
  {
    hide Matches, WireStep, Step, Ordered;
    if |actions| == 0 {
      QuietMatches(codec, setup);
    } else {
      var front, a := actions[..|actions| - 1], actions[|actions| - 1];
      assert actions == front + [a];
      RunOverWire(codec, setup, front);
      var w, run := WireRun(codec, setup, front).value, ShownRun(codec, setup, front);
      var s := SessionPair.Run(setup, run).value;
      RunKeepsOrder(setup, run);
      BeginsAreCarried(codec, setup, s, w, a);
      StepIsShown(codec, setup, s, w, a);
      ShownSnoc(codec, setup, front, a);
      assert run + [] == run;
      if Shown(w, a).Some? {
        RunSnoc(setup, run, Shown(w, a).value);
      }
    }
  }

  lemma BeginsAreCarried(codec: Codec, setup: Setup, s: System, w: Wire, a: WireAction)
    requires Faithful(codec, setup) && Matches(codec, setup, s, w) && Ordered(setup, s)
    requires WireStep(codec, setup, w, a).Some?
    ensures a.Begin? || a.Refuse? ==> Scripted(setup, a.msg) && RoundTrips(codec, a.msg)
  {
    hide Matches, Ordered, Step, Scripted;
    if a.Begin? || a.Refuse? {
      MoveIsStep(codec, setup, s, w, a.side, a.msg);
      WritesAreScripted(setup, s, a.side, a.msg);
    }
  }

  // ---- Every run over queues is a run over bytes ----------------------------------

  /** Between messages: nothing half taken, nothing half pushed. */
  predicate Settled(w: Wire) {
    w.up.taken == [] && w.down.taken == [] && w.up.writing.Idle? && w.down.writing.Idle?
  }

  function SideOf(b: Action): Side {
    if b.ByClient? then ClientSide else ServerSide
  }

  lemma WriteWhole(codec: Codec, setup: Setup, actions: seq<WireAction>, side: Side, m: Msg)
    returns (r: seq<WireAction>)
    requires WireRun(codec, setup, actions).Some? && Settled(WireRun(codec, setup, actions).value)
    requires Move(setup, WireRun(codec, setup, actions).value, side, Wrote(m)).Some? && Fits(codec, m)
    ensures WireRun(codec, setup, r).Some? && Settled(WireRun(codec, setup, r).value)
    ensures ShownRun(codec, setup, r) == ShownRun(codec, setup, actions) + [By(side, Wrote(m))]
  {
    hide WireRun, ShownRun, ClientStep, ServerStep, Frame;
    var f := FrameOf(codec, m);
    assert |f| >= 4 by {
      FrameLength(codec.encode(m));
    }
    ShownSnoc(codec, setup, actions, Begin(side, m));
    var begun := actions + [Begin(side, m)];
    ShownSnoc(codec, setup, begun, Push(side, |f|));
    r := begun + [Push(side, |f|)];
  }

  lemma FrameLength(payload: seq<byte>)
    ensures |Frame(payload)| == 4 + |payload|
  {
  }

  /** Where the front message is among the bytes in flight. */
  lemma FrontBytes(codec: Codec, queue: seq<Msg>, writing: Writing)
    requires CarriesAll(codec, queue) && WritingFits(codec, writing) && |queue| > 0
    ensures
      var bytes := OnWire(codec, queue) + Partial(codec, writing);
      var payload := codec.encode(queue[0]);
      && |bytes| >= 4 + |payload| && FromBe(bytes[..4]) == |payload| <= MAX_FRAME_BYTES
      && bytes[4..4 + |payload|] == payload
  {
    hide OnWire, Partial, WritingFits, FromBe;
    DecodeInFlight(codec, queue, writing);
  }

  /** The length prefix announces the body, and prefix and body make a complete frame. */
  lemma PrefixThenBody(bytes: seq<byte>, len: nat)
    requires |bytes| >= 4 + len && FromBe(bytes[..4]) == len <= MAX_FRAME_BYTES
    ensures !Oversized(bytes[..4]) && Wanted(bytes[..4]) == 4 + len
    ensures bytes[..4] + bytes[4..][..len] == bytes[..4 + len] && bytes[4..][len..] == bytes[4 + len..]
    ensures Complete(bytes[..4 + len]) && bytes[..4 + len][4..] == bytes[4..4 + len]
    ensures len == 0 ==> Complete(bytes[..4])
  {
    hide FromBe;
    assert bytes[..4][..4] == bytes[..4];
    assert bytes[..4 + len][..4] == bytes[..4];
  }

  lemma TakeMore(codec: Codec, setup: Setup, actions: seq<WireAction>, side: Side, n: nat)
    requires WireRun(codec, setup, actions).Some?
    requires
      var w := WireRun(codec, setup, actions).value;
      var lane := In(w, side);
      && Reading(w, side) && !Oversized(lane.taken)
      && 0 < n <= |lane.flight| && |lane.taken| + n <= Wanted(lane.taken)
    ensures
      var w := WireRun(codec, setup, actions).value;
      var lane := In(w, side);
      && WireRun(codec, setup, actions + [Take(side, n)]) ==
        Some(WithIn(w, side, lane.(taken := lane.taken + lane.flight[..n], flight := lane.flight[n..])))
      && ShownRun(codec, setup, actions + [Take(side, n)]) == ShownRun(codec, setup, actions)
  {
    hide WireRun, ShownRun, Wanted, Oversized, Reading;
    ShownSnoc(codec, setup, actions, Take(side, n));
    assert ShownRun(codec, setup, actions) + [] == ShownRun(codec, setup, actions);
  }

  /** The whole message at the front can be taken, first its prefix and then its body. */
  lemma TakeWhole(codec: Codec, setup: Setup, actions: seq<WireAction>, side: Side, len: nat)
    returns (r: seq<WireAction>)
    requires WireRun(codec, setup, actions).Some?
    requires
      var w := WireRun(codec, setup, actions).value;
      var bytes := In(w, side).flight;
      && Reading(w, side) && In(w, side).taken == []
      && |bytes| >= 4 + len && FromBe(bytes[..4]) == len <= MAX_FRAME_BYTES
    ensures
      var w := WireRun(codec, setup, actions).value;
      var bytes := In(w, side).flight;
      && WireRun(codec, setup, r) ==
        Some(WithIn(w, side, In(w, side).(taken := bytes[..4 + len], flight := bytes[4 + len..])))
      && ShownRun(codec, setup, r) == ShownRun(codec, setup, actions)
  {
    hide WireRun, ShownRun, FromBe, ClientReading, ServerReading;
    var bytes := In(WireRun(codec, setup, actions).value, side).flight;
    PrefixThenBody(bytes, len);
    TakeMore(codec, setup, actions, side, 4);
    assert [] + bytes[..4] == bytes[..4];
    r := actions + [Take(side, 4)];
    if len > 0 {
      hide Wanted, Oversized;
      TakeMore(codec, setup, r, side, len);
      r := r + [Take(side, len)];
    }
  }

  lemma GetWhole(codec: Codec, setup: Setup, actions: seq<WireAction>, s: System, side: Side)
    returns (r: seq<WireAction>)
    requires WireRun(codec, setup, actions).Some? && Settled(WireRun(codec, setup, actions).value)
    requires Matches(codec, setup, s, WireRun(codec, setup, actions).value)
    requires |InQueue(s, side)| > 0
    requires Move(setup, WireRun(codec, setup, actions).value, side, Got(InQueue(s, side)[0])).Some?
    ensures WireRun(codec, setup, r).Some? && Settled(WireRun(codec, setup, r).value)
    ensures ShownRun(codec, setup, r) == ShownRun(codec, setup, actions) + [By(side, Got(InQueue(s, side)[0]))]
  {
    hide WireRun, ShownRun, ClientStep, ServerStep, FromBe, OnWire, Partial, WritingFits, CarriesAll;
    hide Complete, Wanted, Oversized, ClientReading, ServerReading;
    var w, queue := WireRun(codec, setup, actions).value, InQueue(s, side);
    var m, bytes := queue[0], In(w, side).flight;
    var len := |codec.encode(m)|;
    assert bytes == [] + bytes;
    FrontBytes(codec, queue, In(w, side).writing);
    PrefixThenBody(bytes, len);
    ReadersGet(setup, w, side, m);
    FrontRoundTrips(codec, queue);
    r := TakeWhole(codec, setup, actions, side, len);
    ShownSnoc(codec, setup, r, Do(side, Got(m)));
    r := r + [Do(side, Got(m))];
  }

  lemma FrontRoundTrips(codec: Codec, queue: seq<Msg>)
    requires CarriesAll(codec, queue) && |queue| > 0
    ensures RoundTrips(codec, queue[0])
  {
  }

  lemma ReadersGet(setup: Setup, w: Wire, side: Side, m: Msg)
    requires Move(setup, w, side, Got(m)).Some?
    ensures Reading(w, side)
  {
  }

  lemma OtherWhole(codec: Codec, setup: Setup, actions: seq<WireAction>, side: Side, e: Event)
    returns (r: seq<WireAction>)
    requires WireRun(codec, setup, actions).Some? && Settled(WireRun(codec, setup, actions).value)
    requires Move(setup, WireRun(codec, setup, actions).value, side, e).Some? && !e.Got? && !e.Wrote?
    ensures WireRun(codec, setup, r).Some? && Settled(WireRun(codec, setup, r).value)
    ensures ShownRun(codec, setup, r) == ShownRun(codec, setup, actions) + [By(side, e)]
  {
    hide WireRun, ShownRun, ClientStep, ServerStep;
    ShownSnoc(codec, setup, actions, Do(side, e));
    r := actions + [Do(side, e)];
  }

  lemma StepIsMove(codec: Codec, setup: Setup, s: System, w: Wire, b: Action)
    requires Matches(codec, setup, s, w) && Step(setup, s, b).Some?
    ensures Move(setup, w, SideOf(b), b.e).Some? && b == By(SideOf(b), b.e)
    ensures b.e.Got? ==> |InQueue(s, SideOf(b))| > 0 && InQueue(s, SideOf(b))[0] == b.e.msg
  {
    hide LaneHolds;
  }

  /** Every run over queues whose messages fit their frames is what some run over bytes
      amounts to. */
  lemma {:induction false} RunHasWireRun(codec: Codec, setup: Setup, run: seq<Action>) returns (r: seq<WireAction>)
    requires Faithful(codec, setup) && SessionPair.Run(setup, run).Some?
    requires forall i :: 0 <= i < |run| && run[i].e.Wrote? ==> Fits(codec, run[i].e.msg)
    ensures WireRun(codec, setup, r).Some? && ShownRun(codec, setup, r) == run
    ensures Settled(WireRun(codec, setup, r).value)
  {
    if |run| == 0 {
      r := [];
    } else {
      var front, b := run[..|run| - 1], run[|run| - 1];
      var side := SideOf(b);
      assert run == front + [b];
      r := RunHasWireRun(codec, setup, front);
      RunOverWire(codec, setup, r);
      var s, w := SessionPair.Run(setup, front).value, WireRun(codec, setup, r).value;
      hide Matches, WireRun, ShownRun, Step, Settled;
      StepIsMove(codec, setup, s, w, b);
      match b.e {
        case Wrote(m) => r := WriteWhole(codec, setup, r, side, m);
        case Got(_) => r := GetWhole(codec, setup, r, s, side);
        case _ => r := OtherWhole(codec, setup, r, side, b.e);
      }
    }
  }

  // ---- Safety down to the bytes ---------------------------------------------------

  /** What lies before a reader: nothing or a part of a frame, and then a writer that is
      in the middle of it or gave up; or one whole frame of the message it expects. */
  predicate ReadsAsExpected(codec: Codec, lane: Lane, expects: Msg -> bool) {
    match Decode(lane.taken + lane.flight).0
    case Payload(p) => codec.decode(p).Some? && expects(codec.decode(p).value)
    case Failed(e) => e == UnexpectedEof && (lane.taken + lane.flight == [] || !lane.writing.Idle?)
  }

  lemma LaneReads(codec: Codec, queue: seq<Msg>, lane: Lane, expects: Msg -> bool)
    requires LaneHolds(codec, queue, lane) && (|queue| > 0 ==> expects(queue[0]))
    ensures ReadsAsExpected(codec, lane, expects)
    ensures forall m :: Message(codec, lane.taken) == Some(m) ==> expects(m)
    ensures !Oversized(lane.taken) && (Complete(lane.taken) ==> Message(codec, lane.taken).Some?)
  {
    hide OnWire, Decode, Wanted, Oversized, Complete;
    DecodeInFlight(codec, queue, lane.writing);
    DecodeOfTaken(lane.taken, lane.flight);
    if |queue| == 0 {
      NoBytes(codec);
      assert queue == [];
    }
  }

  lemma NoBytes(codec: Codec)
    ensures OnWire(codec, []) == []
  {
  }

  /** Whatever fails and however the bytes are cut: what a reading server reads is a whole
      frame of the message it expects, or it waits on a frame that its peer is writing or
      gave up on; it never sees an oversized length or a message it does not expect. */
  lemma ServerReadsWholeMessages(codec: Codec, setup: Setup, actions: seq<WireAction>)
    requires Faithful(codec, setup) && WireRun(codec, setup, actions).Some?
    ensures
      var w := WireRun(codec, setup, actions).value;
      ServerReading(w.server) ==>
        && ReadsAsExpected(codec, w.up, m => ServerExpects(w.server, m))
        && !Oversized(w.up.taken) && (Complete(w.up.taken) ==> Message(codec, w.up.taken).Some?)
  {
    RunOverWire(codec, setup, actions);
    var w := WireRun(codec, setup, actions).value;
    var s := SessionPair.Run(setup, ShownRun(codec, setup, actions)).value;
    hide ServerReading, ServerExpects, LaneHolds, WireRun, ShownRun, ReadsAsExpected;
    assert Reachable(setup, s);
    SafetyUnderFaults(setup, s);
    if ServerReading(w.server) {
      LaneReads(codec, s.c2s, w.up, m => ServerExpects(w.server, m));
    }
  }

  /** The same for the client, when the versions are equal. */
  lemma ClientReadsWholeMessages(codec: Codec, setup: Setup, actions: seq<WireAction>)
    requires Faithful(codec, setup) && WireRun(codec, setup, actions).Some? && Compatible(setup)
    ensures
      var w := WireRun(codec, setup, actions).value;
      ClientReading(w.client) ==>
        && ReadsAsExpected(codec, w.down, m => ClientExpects(w.client, m))
        && !Oversized(w.down.taken) && (Complete(w.down.taken) ==> Message(codec, w.down.taken).Some?)
  {
    RunOverWire(codec, setup, actions);
    var w := WireRun(codec, setup, actions).value;
    var s := SessionPair.Run(setup, ShownRun(codec, setup, actions)).value;
    hide ClientReading, ClientExpects, LaneHolds, WireRun, ShownRun, ReadsAsExpected;
    assert Reachable(setup, s);
    SafetyUnderFaults(setup, s);
    if ClientReading(w.client) {
      LaneReads(codec, s.s2c, w.down, m => ClientExpects(w.client, m));
    }
  }
}
